/**
  The question parser of the extractor (entrepreneurship_quiz_v2.py, lines
  75-124): the question sheet is normalised, cut into numbered blocks at each
  `\s(\d+)\.\s+`, and every block that has a non-empty stem and all four
  options `A)` to `D)` becomes one question.
 */
module QuestionParser {
  import opened Text
  import opened Normalise
  import opened Scan

  datatype Options = Options(a: string, b: string, c: string, d: string)

  datatype Question = Question(id: nat, stem: string, options: Options)

  /** A piece of the split text: a question number and the text after it. */
  datatype Block = Block(number: nat, content: string)

  /** No whitespace at either end: what `str.strip()` leaves. */
  predicate Trimmed(s: string) {
    s == "" || (!IsSpace(s[0]) && !IsSpace(s[|s| - 1]))
  }

  /** Stripped and normalised: what every option of a parsed question looks like. */
  predicate Clean(s: string) {
    IsCollapsed(s) && Trimmed(s)
  }

  lemma PairLiteral(s: string, i: nat, x: char, y: char)
    ensures LiteralAt(s, i, [x, y]) <==> (i + 1 < |s| && s[i] == x && s[i + 1] == y)
  {
    if i + 1 < |s| {
      assert s[i..i + 2] == [s[i], s[i + 1]];
    }
  }

  /** The label `letter)` starts at `i`. */
  predicate LabelOf(s: string, i: nat, letter: char) {
    i + 1 < |s| && s[i] == letter && s[i + 1] == ')'
  }

  /** The lookahead `(?=[B-D]\))`: a later option's label starts at `q`. */
  predicate LabelAt(s: string, q: nat) {
    q + 1 < |s| && 'B' <= s[q] <= 'D' && s[q + 1] == ')'
  }

  /** The anchor `$` without MULTILINE: the end, or just before a final newline. */
  predicate EndAnchor(s: string, q: nat) {
    q == |s| || (q + 1 == |s| && s[q] == '\n')
  }

  /** Where the lazy `(.*?)` starting at `q` stops: the first label or end anchor. */
  function OptionEnd(s: string, q: nat): (e: nat)
    requires q <= |s|
    ensures q <= e <= |s| && (LabelAt(s, e) || EndAnchor(s, e))
    ensures forall j :: q <= j < e ==> !LabelAt(s, j) && !EndAnchor(s, j)
    decreases |s| - q
  {
    if LabelAt(s, q) || EndAnchor(s, q) then q else OptionEnd(s, q + 1)
  }

  /**
    The text of option `letter` in `s`: `{letter}\)(.*?)(?=[B-D]\)|$)` searched
    with DOTALL, its group stripped and normalised. `None` when the label
    `letter)` does not occur at all.
   */
  function OptionText(s: string, letter: char): (r: Option<string>)
    ensures r.Some? <==> exists i :: 0 <= i < |s| && LabelOf(s, i, letter)
    ensures r.Some? ==> Clean(r.value)
  {
    match IndexOf(s, [letter, ')'], 0)
    case None =>
      assert forall i :: 0 <= i < |s| ==> !LabelOf(s, i, letter) by {
        forall i | 0 <= i < |s| ensures !LabelOf(s, i, letter) {
          PairLiteral(s, i, letter, ')');
        }
      }
      None
    case Some(p) =>
      PairLiteral(s, p, letter, ')');
      assert LabelOf(s, p, letter);
      var body := Strip(s[p + 2..OptionEnd(s, p + 2)]);
      var r := Collapse(body);
      CollapseNormalises(body);
      assert r != "" ==> !IsSpace(r[0]) && !IsSpace(r[|r| - 1]);
      Some(r)
  }

  /** Once the label has been found, the option is the normalised text up to the next label. */
  lemma OptionTextAt(s: string, letter: char, p: nat)
    requires IndexOf(s, [letter, ')'], 0) == Some(p)
    ensures p + 2 <= |s|
    ensures OptionText(s, letter) == Some(Collapse(Strip(s[p + 2..OptionEnd(s, p + 2)])))
  {
    PairLiteral(s, p, letter, ')');
    var body := Strip(s[p + 2..OptionEnd(s, p + 2)]);
    assert OptionText(s, letter) == Some(Collapse(body));
  }

  /**
    One block turned into a question (lines 93-122): the stripped content
    must contain `A)`; the stem is the stripped text before the first `A)`
    and must not be empty; each option is looked for in the text from that
    `A)` on, and all four must be found.
   */
  function ParseBlock(b: Block): (r: Option<Question>)
    ensures r.Some? ==> r.value.id == b.number
    ensures r.Some? ==> r.value.stem != "" && Trimmed(r.value.stem)
    ensures r.Some? && IsCollapsed(b.content) ==> IsCollapsed(r.value.stem)
    ensures r.Some? ==> Clean(r.value.options.a) && Clean(r.value.options.b)
    ensures r.Some? ==> Clean(r.value.options.c) && Clean(r.value.options.d)
  {
    var content := Strip(b.content);
    match IndexOf(content, "A)", 0)
    case None => None
    case Some(p) =>
      var stem := Strip(content[..p]);
      var region := content[p..];
      var a, bo, c, d := OptionText(region, 'A'), OptionText(region, 'B'),
                         OptionText(region, 'C'), OptionText(region, 'D');
      if stem != "" && a.Some? && bo.Some? && c.Some? && d.Some? then
        assert IsCollapsed(b.content) ==> IsCollapsed(stem) by {
          if IsCollapsed(b.content) {
            StripCollapsed(b.content);
            CollapsedSlice(content, 0, p);
            StripCollapsed(content[..p]);
          }
        }
        Some(Question(b.number, stem, Options(a.value, bo.value, c.value, d.value)))
      else None
  }

  /** The label `letter)` occurs somewhere in `s`. */
  predicate HasLabel(s: string, letter: char) {
    exists i :: 0 <= i < |s| && LabelOf(s, i, letter)
  }

  /** The first label `A)` of `s` starts at `p`. */
  predicate FirstA(s: string, p: nat) {
    LabelOf(s, p, 'A') && forall i :: 0 <= i < p ==> !LabelOf(s, i, 'A')
  }

  /**
    The rule by which a block is kept: its stripped content has a label
    `A)`, the text before the first one is not blank, and the labels `B)`,
    `C)` and `D)` occur from there on.
   */
  predicate Keeps(b: Block) {
    var content := Strip(b.content);
    exists p :: 0 <= p < |content| && FirstA(content, p) && KeepsFrom(content, p)
  }

  /** From the first `A)` at `p`: a stem that is not blank, and labels `B)`, `C)`, `D)` after it. */
  predicate KeepsFrom(content: string, p: nat)
    requires p <= |content|
  {
    Strip(content[..p]) != ""
      && HasLabel(content[p..], 'B') && HasLabel(content[p..], 'C') && HasLabel(content[p..], 'D')
  }

  /** `A)` is found where the first label `A)` starts, and nowhere when there is none. */
  lemma FirstALabel(s: string)
    ensures IndexOf(s, "A)", 0).None? ==> forall p :: 0 <= p < |s| ==> !FirstA(s, p)
    ensures IndexOf(s, "A)", 0).Some? ==>
      var p := IndexOf(s, "A)", 0).value;
      p < |s| && FirstA(s, p) && forall p' :: 0 <= p' < |s| && FirstA(s, p') ==> p' == p
  {
    forall i | 0 <= i <= |s| ensures LiteralAt(s, i, "A)") <==> LabelOf(s, i, 'A') {
      PairLiteral(s, i, 'A', ')');
    }
  }

  /** A block yields a question exactly when the rule keeps it; every other block is dropped. */
  lemma ParseBlockKeeps(b: Block)
    ensures ParseBlock(b).Some? <==> Keeps(b)
  {
    var content := Strip(b.content);
    FirstALabel(content);
    if IndexOf(content, "A)", 0).None? {
      NoLabelDropped(b);
    } else {
      LabelFound(b, IndexOf(content, "A)", 0).value);
    }
  }

  lemma NoLabelDropped(b: Block)
    requires IndexOf(Strip(b.content), "A)", 0).None?
    requires forall p :: 0 <= p < |Strip(b.content)| ==> !FirstA(Strip(b.content), p)
    ensures ParseBlock(b).None? && !Keeps(b)
  {
  }

  /** Once the first `A)` is found, keeping depends only on the stem and the later labels. */
  lemma LabelFound(b: Block, p: nat)
    requires IndexOf(Strip(b.content), "A)", 0) == Some(p)
    requires p < |Strip(b.content)| && FirstA(Strip(b.content), p)
    requires forall p' :: 0 <= p' < |Strip(b.content)| && FirstA(Strip(b.content), p') ==> p' == p
    ensures ParseBlock(b).Some? <==> Keeps(b)
  {
    ParseBlockAt(b, p);
    assert Keeps(b) <==> KeepsFrom(Strip(b.content), p);
  }

  /** With the first `A)` at `p`, a block parses exactly when it is kept from there. */
  lemma ParseBlockAt(b: Block, p: nat)
    requires IndexOf(Strip(b.content), "A)", 0) == Some(p)
    requires p < |Strip(b.content)| && LabelOf(Strip(b.content), p, 'A')
    ensures ParseBlock(b).Some? <==> KeepsFrom(Strip(b.content), p)
  {
    var region := Strip(b.content)[p..];
    assert LabelOf(region, 0, 'A');
  }

  /** A non-empty stem and four options, every field stripped and normalised. */
  predicate GoodQuestion(q: Question) {
    && q.stem != "" && Clean(q.stem)
    && Clean(q.options.a) && Clean(q.options.b) && Clean(q.options.c) && Clean(q.options.d)
  }

  /** `ParseBlock` succeeds with the pieces its steps produce. */
  lemma ParseBlockFound(b: Block, p: nat, stem: string, opts: Options)
    requires IndexOf(Strip(b.content), "A)", 0) == Some(p)
    requires p <= |Strip(b.content)| && stem == Strip(Strip(b.content)[..p]) && stem != ""
    requires OptionText(Strip(b.content)[p..], 'A') == Some(opts.a)
    requires OptionText(Strip(b.content)[p..], 'B') == Some(opts.b)
    requires OptionText(Strip(b.content)[p..], 'C') == Some(opts.c)
    requires OptionText(Strip(b.content)[p..], 'D') == Some(opts.d)
    ensures ParseBlock(b) == Some(Question(b.number, stem, opts))
  {
  }

  /**
    The block the `k`-th marker match `ms[k]` opens: whitespace, the digits,
    `.` and whitespace again; the block's number is the value of those
    digits, and its content is the text from the end of the marker to the
    start of the next one, or to the end of the text after the last.
   */
  predicate OpensBlock(t: string, ms: seq<Match>, k: nat, b: Block)
    requires k < |ms|
  {
    && Framed(ms[k], t, ms[k].start, 1) && MarkerShape(t, ms[k])
    && ms[k].end <= NextStart(ms, k, |t|) <= |t|
    && b.number == GroupValue(t, ms[k].groups[0])
    && b.content == t[ms[k].end..NextStart(ms, k, |t|)]
  }

  /**
    `re.split(r'\s(\d+)\.\s+', t)` read as the loop of lines 87-91 reads
    it: one block per marker, holding the marker's number and the text up to
    the next marker (or the end). The text before the first marker is dropped.
   */
  function Blocks(t: string): (bs: seq<Block>)
    ensures |bs| == |FindAll(QuestionMarker, t, 0)|
    ensures forall k :: 0 <= k < |bs| ==> OpensBlock(t, FindAll(QuestionMarker, t, 0), k, bs[k])
    ensures IsCollapsed(t) ==> forall k :: 0 <= k < |bs| ==> IsCollapsed(bs[k].content)
  {
    var ms := FindAll(QuestionMarker, t, 0);
    FindAllShapes(QuestionMarker, t, 0);
    FindAllOrdered(QuestionMarker, t, 0);
    seq(|ms|, k requires 0 <= k < |ms| => BlockAt(t, ms, k))
  }

  /** The block of the `k`-th of the marker matches `ms`, which lie in order in `t`. */
  function BlockAt(t: string, ms: seq<Match>, k: nat): (b: Block)
    requires k < |ms| && Ordered(ms, 0, |t|)
    requires Framed(ms[k], t, ms[k].start, 1) && MarkerShape(t, ms[k])
    ensures OpensBlock(t, ms, k, b)
    ensures IsCollapsed(t) ==> IsCollapsed(b.content)
  {
    var hi := NextStart(ms, k, |t|);
    assert IsCollapsed(t) ==> IsCollapsed(t[ms[k].end..hi]) by {
      if IsCollapsed(t) {
        CollapsedSlice(t, ms[k].end, hi);
      }
    }
    Block(GroupValue(t, ms[k].groups[0]), t[ms[k].end..hi])
  }

  lemma Prepend(q: Question, rest: seq<Question>)
    requires GoodQuestion(q) && forall k :: 0 <= k < |rest| ==> GoodQuestion(rest[k])
    ensures forall k :: 0 <= k < |rest| + 1 ==> GoodQuestion(([q] + rest)[k])
  {
  }

  /** The loop of lines 87-122: the blocks that parse, in order; the others are skipped. */
  function ParseBlocks(bs: seq<Block>): (qs: seq<Question>)
    requires forall k :: 0 <= k < |bs| ==> IsCollapsed(bs[k].content)
    ensures |qs| <= |bs|
    ensures forall k :: 0 <= k < |qs| ==> GoodQuestion(qs[k])
  {
    if |bs| == 0 then []
    else
      assert forall k :: 1 <= k < |bs| ==> bs[1..][k - 1] == bs[k];
      var rest := ParseBlocks(bs[1..]);
      var head := ParseBlock(bs[0]);
      if head.None? then rest
      else
        Prepend(head.value, rest);
        [head.value] + rest
  }

  /** Some block of `bs` parses to the question `q`. */
  predicate ParsedFrom(bs: seq<Block>, q: Question) {
    exists j :: 0 <= j < |bs| && ParseBlock(bs[j]) == Some(q)
  }

  lemma ParsedFromSplit(bs: seq<Block>)
    requires |bs| > 0
    ensures forall q :: ParsedFrom(bs, q) <==> ParseBlock(bs[0]) == Some(q) || ParsedFrom(bs[1..], q)
  {
    forall q | ParsedFrom(bs[1..], q) ensures ParsedFrom(bs, q) {
      var j :| 0 <= j < |bs| - 1 && ParseBlock(bs[1..][j]) == Some(q);
      assert bs[j + 1] == bs[1..][j];
    }
    forall q | ParsedFrom(bs, q) && ParseBlock(bs[0]) != Some(q) ensures ParsedFrom(bs[1..], q) {
      var j :| 0 <= j < |bs| && ParseBlock(bs[j]) == Some(q);
      assert j > 0 && bs[1..][j - 1] == bs[j];
    }
  }

  /**
    The loop keeps exactly the questions its blocks parse to: a question is
    in the result if and only if some block parses to it.
   */
  lemma {:induction false} ParseBlocksFrom(bs: seq<Block>)
    requires forall k :: 0 <= k < |bs| ==> IsCollapsed(bs[k].content)
    ensures forall q :: q in ParseBlocks(bs) <==> ParsedFrom(bs, q)
  {
    if |bs| > 0 {
      assert forall k :: 1 <= k < |bs| ==> bs[1..][k - 1] == bs[k];
      ParseBlocksFrom(bs[1..]);
      ParsedFromSplit(bs);
    }
  }


  /**
    `parse_questions`: normalise the whole text, split it into blocks, and
    keep, in text order, the blocks that parse as complete questions.
   */
  function ParseQuestions(text: string): (qs: seq<Question>)
    ensures |qs| <= |FindAll(QuestionMarker, Collapse(text), 0)|
    ensures forall k :: 0 <= k < |qs| ==> GoodQuestion(qs[k])
  {
    CollapseNormalises(text);
    ParseBlocks(Blocks(Collapse(text)))
  }
}
