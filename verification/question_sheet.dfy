/**
  The layout the question parser expects, written out: every question as
  ` N. stem A) a B) b C) c D) d`, one after the other. Parsing such a sheet
  gives back exactly the questions it was made of, as long as no field looks
  like a question number or an option label.
 */
module QuestionSheet {
  import opened Text
  import opened Normalise
  import opened Numbers
  import opened Scan
  import opened QuestionParser

  function Body(q: Question): string {
    q.stem + " A) " + q.options.a + " B) " + q.options.b + " C) " + q.options.c + " D) " + q.options.d
  }

  function Segment(q: Question): string {
    " " + NatToString(q.id) + ". " + Body(q)
  }

  function Render(qs: seq<Question>): string {
    if |qs| == 0 then "" else Segment(qs[0]) + Render(qs[1..])
  }

  // ------------------------------------------------------ well-formedness

  /** `letter)` does not occur in `s`. */
  predicate NoPair(s: string, letter: char) {
    forall i :: 0 <= i < |s| ==> !LabelOf(s, i, letter)
  }

  /** No `B)`, `C)` or `D)` in `s`: nothing the option lookahead would stop at. */
  predicate HasNoLabel(s: string) {
    forall i :: 0 <= i < |s| ==> !LabelAt(s, i)
  }

  /** At `i` starts `\d+\.` followed by whitespace or the end of `x`. */
  predicate NumberedAt(x: string, i: nat)
    requires i <= |x|
  {
    var d := RunEnd(Digit, x, i);
    d > i && d < |x| && x[d] == '.' && (d + 1 == |x| || IsSpace(x[d + 1]))
  }

  /** At `i` starts a question number `\s\d+\.\s` (or one cut off by the end of `x`). */
  predicate NumberAt(x: string, i: nat)
    requires i < |x|
  {
    IsSpace(x[i]) && NumberedAt(x, i + 1)
  }

  /** Nothing in `x` reads as a question number. */
  predicate NoNumberAfterSpace(x: string) {
    forall i :: 0 <= i < |x| ==> !NumberAt(x, i)
  }

  predicate GoodOption(x: string) {
    x != "" && Clean(x) && HasNoLabel(x)
  }

  /** A question whose own text parses back to it. */
  predicate WellFormed(q: Question) {
    && q.stem != "" && Clean(q.stem) && NoPair(q.stem, 'A')
    && GoodOption(q.options.a) && GoodOption(q.options.b)
    && GoodOption(q.options.c) && GoodOption(q.options.d)
  }

  // ----------------------------------------------------- one option

  /** The text of one option and its label, with the space that follows the label. */
  function Piece(letter: char, x: string): string {
    [letter, ')', ' '] + x + " "
  }

  lemma NoPairJoin(u: string, v: string, letter: char)
    requires NoPair(u, letter) && NoPair(v, letter)
    requires u == "" || v == "" || u[|u| - 1] != letter || v[0] != ')'
    ensures NoPair(u + v, letter)
  {
    var s := u + v;
    forall i | 0 <= i < |s| ensures !LabelOf(s, i, letter) {
      if i + 1 < |u| {
        assert s[i] == u[i] && s[i + 1] == u[i + 1];
        assert !LabelOf(u, i, letter);
      } else if i + 1 == |u| && i + 1 < |s| {
        assert s[i] == u[i] && s[i + 1] == v[0];
      } else if |u| <= i && i + 1 < |s| {
        assert s[i] == v[i - |u|] && s[i + 1] == v[i + 1 - |u|];
        assert !LabelOf(v, i - |u|, letter);
      }
    }
  }

  lemma NoPairInPiece(other: char, x: string, letter: char)
    requires 'B' <= letter <= 'D' && other != letter && HasNoLabel(x)
    ensures NoPair(Piece(other, x), letter)
  {
    var s := Piece(other, x);
    forall i | 0 <= i < |s| ensures !LabelOf(s, i, letter) {
      if 3 <= i < 2 + |x| {
        assert s[i] == x[i - 3] && s[i + 1] == x[i - 2];
        assert !LabelAt(x, i - 3);
      } else if i == 2 + |x| && |x| > 0 {
        assert s[i + 1] == ' ';
      }
    }
  }

  /** The first `letter)` of `s` is the one right after `pre`. */
  lemma FirstLabel(s: string, pre: string, letter: char, rest: string)
    requires s == pre + [letter, ')'] + rest
    requires NoPair(pre, letter) && (pre == "" || pre[|pre| - 1] != letter)
    ensures IndexOf(s, [letter, ')'], 0) == Some(|pre|)
  {
    var p := |pre|;
    var lit := [letter, ')'];
    forall i | 0 <= i < p ensures !LiteralAt(s, i, lit) {
      PairLiteral(s, i, letter, ')');
      if i < p - 1 {
        assert s[i] == pre[i] && s[i + 1] == pre[i + 1];
        assert !LabelOf(pre, i, letter);
      } else {
        assert s[i] == pre[i];
      }
    }
    assert s[p] == letter && s[p + 1] == ')';
    PairLiteral(s, p, letter, ')');
    var r := IndexOf(s, lit, 0);
    assert r.Some? && r.value <= p;
  }

  /** The lazy option text that starts at `p + 2` runs to the next label or the end. */
  lemma OptionEndAfter(s: string, p: nat, x: string, post: string)
    requires p + 3 + |x| + |post| == |s|
    requires s[p + 2] == ' ' && s[p + 3..p + 3 + |x|] == x && s[p + 3 + |x|..] == post
    requires GoodOption(x)
    requires post == "" || (|post| >= 3 && post[0] == ' ' && 'B' <= post[1] <= 'D' && post[2] == ')')
    ensures OptionEnd(s, p + 2) == if post == "" then |s| else p + 4 + |x|
  {
    var xe := p + 3 + |x|;
    var e := if post == "" then xe else xe + 1;
    assert forall m :: 0 <= m < |x| ==> s[p + 3 + m] == x[m];
    assert forall m :: 0 <= m < |post| ==> s[xe + m] == post[m];
    forall j | p + 2 <= j < e ensures !LabelAt(s, j) && !EndAnchor(s, j) {
      if p + 3 <= j < xe - 1 {
        assert !LabelAt(x, j - p - 3);
        assert s[j] == x[j - p - 3] && s[j + 1] == x[j - p - 2];
      } else if j == xe - 1 {
        assert s[j] == x[|x| - 1];
      }
    }
    assert LabelAt(s, e) || EndAnchor(s, e);
  }

  lemma OptionShape(s: string, pre: string, letter: char, x: string, post: string)
    requires s == pre + [letter, ')', ' '] + x + post
    requires post == "" || post[0] == ' '
    ensures s == pre + [letter, ')'] + ([' '] + x + post)
    ensures s[|pre| + 2] == ' ' && s[|pre| + 3..|pre| + 3 + |x|] == x && s[|pre| + 3 + |x|..] == post
    ensures s[|pre| + 2..|pre| + 3 + |x|] == " " + x
    ensures post != "" ==> s[|pre| + 2..|pre| + 4 + |x|] == " " + x + " "
    ensures post == "" ==> s[|pre| + 2..|pre| + 3 + |x|] == " " + x + ""
  {
  }

  /** The option text runs from its label to the space before the next label, or to the end. */
  lemma OptionSpan(s: string, pre: string, letter: char, x: string, post: string, tail: string, e: nat)
    requires s == pre + [letter, ')', ' '] + x + post
    requires GoodOption(x) && tail == (if post == "" then "" else " ") && e == |pre| + 3 + |x| + |tail|
    requires post == "" || (|post| >= 3 && post[0] == ' ' && 'B' <= post[1] <= 'D' && post[2] == ')')
    ensures e <= |s| && s[|pre| + 2..e] == " " + x + tail
  {
    OptionShape(s, pre, letter, x, post);
    if post == "" {
      assert e == |pre| + 3 + |x| == |s|;
    } else {
      assert e == |pre| + 4 + |x|;
    }
  }

  /** The lazy match of the option text stops at that same place. */
  lemma OptionStop(s: string, pre: string, letter: char, x: string, post: string, tail: string, e: nat)
    requires s == pre + [letter, ')', ' '] + x + post
    requires GoodOption(x) && tail == (if post == "" then "" else " ") && e == |pre| + 3 + |x| + |tail|
    requires post == "" || (|post| >= 3 && post[0] == ' ' && 'B' <= post[1] <= 'D' && post[2] == ')')
    ensures e <= |s| && OptionEnd(s, |pre| + 2) == e
  {
    OptionShape(s, pre, letter, x, post);
    OptionEndAfter(s, |pre|, x, post);
    if post == "" {
      assert e == |pre| + 3 + |x| == |s|;
    } else {
      assert e == |pre| + 4 + |x|;
    }
  }

  /**
    Where the option's label is the first `letter)` of `s` and the option text
    is followed by the next label or the end, `OptionText` finds that text.
   */
  lemma OptionFound(s: string, pre: string, letter: char, x: string, post: string)
    requires 'A' <= letter <= 'D'
    requires s == pre + [letter, ')', ' '] + x + post
    requires NoPair(pre, letter) && (pre == "" || pre[|pre| - 1] == ' ')
    requires GoodOption(x)
    requires post == "" || (|post| >= 3 && post[0] == ' ' && 'B' <= post[1] <= 'D' && post[2] == ')')
    ensures OptionText(s, letter) == Some(x)
  {
    var p := |pre|;
    var tail := if post == "" then "" else " ";
    var e := p + 3 + |x| + |tail|;
    assert IndexOf(s, [letter, ')'], 0) == Some(p) by {
      OptionShape(s, pre, letter, x, post);
      FirstLabel(s, pre, letter, [' '] + x + post);
    }
    OptionSpan(s, pre, letter, x, post, tail, e);
    OptionStop(s, pre, letter, x, post, tail, e);
    assert Collapse(Strip(" " + x + tail)) == x by {
      StripSurrounded(" ", x, tail);
      CollapseFixedIff(x);
    }
    OptionTextIs(s, letter, p, e, " " + x + tail, x);
  }

  /** The option text is the normalised, stripped text between its label and where it ends. */
  lemma OptionTextIs(s: string, letter: char, p: nat, e: nat, body: string, x: string)
    requires IndexOf(s, [letter, ')'], 0) == Some(p) && p + 2 <= e <= |s|
    requires OptionEnd(s, p + 2) == e && s[p + 2..e] == body && Collapse(Strip(body)) == x
    ensures OptionText(s, letter) == Some(x)
  {
    OptionTextAt(s, letter, p);
  }

  // ----------------------------------------------------- one block

  /** The region of options, `A) a B) b C) c D) d`. */
  function Region(a: string, b: string, c: string, d: string): string {
    Piece('A', a) + Piece('B', b) + Piece('C', c) + "D) " + d
  }

  lemma FirstOptionFound(a: string, b: string, c: string, d: string)
    requires GoodOption(a)
    ensures OptionText(Region(a, b, c, d), 'A') == Some(a)
  {
    var rest := " " + Piece('B', b) + Piece('C', c) + "D) " + d;
    assert Region(a, b, c, d) == "" + ['A', ')', ' '] + a + rest;
    OptionFound(Region(a, b, c, d), "", 'A', a, rest);
  }

  lemma SecondOptionFound(a: string, b: string, c: string, d: string)
    requires HasNoLabel(a) && GoodOption(b)
    ensures OptionText(Region(a, b, c, d), 'B') == Some(b)
  {
    var rest := " " + Piece('C', c) + "D) " + d;
    assert Region(a, b, c, d) == Piece('A', a) + ['B', ')', ' '] + b + rest;
    NoPairInPiece('A', a, 'B');
    OptionFound(Region(a, b, c, d), Piece('A', a), 'B', b, rest);
  }

  lemma ThirdOptionFound(a: string, b: string, c: string, d: string)
    requires HasNoLabel(a) && HasNoLabel(b) && GoodOption(c)
    ensures OptionText(Region(a, b, c, d), 'C') == Some(c)
  {
    var pre := Piece('A', a) + Piece('B', b);
    var rest := " " + "D) " + d;
    assert Region(a, b, c, d) == pre + ['C', ')', ' '] + c + rest;
    NoPairInPiece('A', a, 'C');
    NoPairInPiece('B', b, 'C');
    NoPairJoin(Piece('A', a), Piece('B', b), 'C');
    OptionFound(Region(a, b, c, d), pre, 'C', c, rest);
  }

  lemma FourthOptionFound(a: string, b: string, c: string, d: string)
    requires HasNoLabel(a) && HasNoLabel(b) && HasNoLabel(c) && GoodOption(d)
    ensures OptionText(Region(a, b, c, d), 'D') == Some(d)
  {
    var pre := Piece('A', a) + Piece('B', b) + Piece('C', c);
    assert Region(a, b, c, d) == pre + ['D', ')', ' '] + d + "";
    NoPairInPiece('A', a, 'D');
    NoPairInPiece('B', b, 'D');
    NoPairInPiece('C', c, 'D');
    NoPairJoin(Piece('A', a), Piece('B', b), 'D');
    NoPairJoin(Piece('A', a) + Piece('B', b), Piece('C', c), 'D');
    OptionFound(Region(a, b, c, d), pre, 'D', d, "");
  }

  lemma BodyShape(stem: string, a: string, b: string, c: string, d: string)
    requires stem != "" && d != ""
    ensures var region := Region(a, b, c, d);
      var body := Body(Question(0, stem, Options(a, b, c, d)));
      && |region| >= 2 && body == stem + " " + ['A', ')'] + region[2..]
      && body[0] == stem[0] && body[|body| - 1] == d[|d| - 1]
      && body[..|stem| + 1] == stem + " " && body[|stem| + 1..] == region
      && stem + " " != "" && (stem + " ")[|stem|] != 'A'
  {
    var region := Region(a, b, c, d);
    var body := Body(Question(0, stem, Options(a, b, c, d)));
    assert body == stem + " " + region;
  }

  /** A question's text is already stripped, and so is its stem. */
  lemma BodyStripped(stem: string, a: string, b: string, c: string, d: string)
    requires stem != "" && Trimmed(stem) && d != "" && Trimmed(d)
    ensures var body := Body(Question(0, stem, Options(a, b, c, d)));
      && Strip(body) == body && Strip(body[..|stem| + 1]) == stem
      && body[|stem| + 1..] == Region(a, b, c, d)
  {
    var body := Body(Question(0, stem, Options(a, b, c, d)));
    assert Strip(stem + " ") == stem by {
      StripSurrounded("", stem, " ");
      assert "" + stem + " " == stem + " ";
    }
    BodyShape(stem, a, b, c, d);
    StripFixedIff(body);
  }

  /** In a question's text the stem ends where the first option's label starts. */
  lemma StemEnd(stem: string, a: string, b: string, c: string, d: string)
    requires stem != "" && NoPair(stem, 'A') && d != ""
    ensures IndexOf(Body(Question(0, stem, Options(a, b, c, d))), "A)", 0) == Some(|stem| + 1)
  {
    var body := Body(Question(0, stem, Options(a, b, c, d)));
    var pre, rest := stem + " ", Region(a, b, c, d)[2..];
    BodyShape(stem, a, b, c, d);
    assert NoPair(" ", 'A');
    NoPairJoin(stem, " ", 'A');
    FirstLabel(body, pre, 'A', rest);
    assert "A)" == ['A', ')'];
  }

  /** A question's own text, parsed as a block, gives the question back. */
  lemma BlockRoundTrip(q: Question)
    requires WellFormed(q)
    ensures ParseBlock(Block(q.id, Body(q))) == Some(q)
  {
    var stem, o := q.stem, q.options;
    var body := Body(q);
    var region := Region(o.a, o.b, o.c, o.d);
    var p := |stem| + 1;
    BodyStripped(stem, o.a, o.b, o.c, o.d);
    StemEnd(stem, o.a, o.b, o.c, o.d);
    assert && OptionText(region, 'A') == Some(o.a) && OptionText(region, 'B') == Some(o.b)
           && OptionText(region, 'C') == Some(o.c) && OptionText(region, 'D') == Some(o.d) by {
      FirstOptionFound(o.a, o.b, o.c, o.d);
      SecondOptionFound(o.a, o.b, o.c, o.d);
      ThirdOptionFound(o.a, o.b, o.c, o.d);
      FourthOptionFound(o.a, o.b, o.c, o.d);
    }
    ParseBlockFound(Block(q.id, body), p, stem, o);
  }

  // ----------------------------------------------------- the whole sheet

  /** Every question well-formed, and nothing in a question's text reads as a question number. */
  predicate SheetReady(qs: seq<Question>) {
    forall k :: 0 <= k < |qs| ==> WellFormed(qs[k]) && NoNumberAfterSpace(Body(qs[k]))
  }

  /** The match of a question number: ` N. ` at `o`, with the digits of `N` as its group. */
  function Marker(o: nat, id: nat): (m: Match)
    ensures m.start == o && |m.groups| == 1
  {
    var n := |NatToString(id)|;
    Match(o, o + n + 3, [Span(o + 1, o + 1 + n)])
  }

  /** The number matches of the questions `rest`, rendered from `o` on. */
  function MarkersFrom(o: nat, rest: seq<Question>): (ms: seq<Match>)
    ensures |ms| == |rest|
    ensures forall k :: 0 <= k < |ms| ==> |ms[k].groups| == 1
    decreases |rest|
  {
    if |rest| == 0 then []
    else [Marker(o, rest[0].id)] + MarkersFrom(o + |Segment(rest[0])|, rest[1..])
  }

  lemma MarkersStep(o: nat, next: nat, rest: seq<Question>)
    requires |rest| > 0 && next == o + |Segment(rest[0])|
    ensures MarkersFrom(o, rest) == [Marker(o, rest[0].id)] + MarkersFrom(next, rest[1..])
  {
  }

  /** From `o` on, `t` is the rendering of `rest`. */
  predicate Tail(t: string, o: nat, rest: seq<Question>) {
    o <= |t| && t[o..] == Render(rest)
  }

  /** The text `x` sits in `t` at `o`. */
  predicate Placed(t: string, o: nat, x: string) {
    o + |x| <= |t| && forall m {:trigger x[m]} :: 0 <= m < |x| ==> t[o + m] == x[m]
  }

  /** The first question of a rendered tail sits at its start, and the rest follows. */
  lemma TailSplit(t: string, o: nat, rest: seq<Question>)
    requires Tail(t, o, rest) && |rest| > 0
    ensures var next := o + |Segment(rest[0])|;
      && Placed(t, o, Segment(rest[0])) && Tail(t, next, rest[1..])
      && (next == |t| || t[next] == ' ')
  {
    var seg, after := Segment(rest[0]), Render(rest[1..]);
    assert t[o..] == seg + after;
    forall m | 0 <= m < |seg| ensures t[o + m] == seg[m] {
      assert t[o + m] == t[o..][m];
    }
    assert t[o + |seg|..] == t[o..][|seg|..];
    if |rest| > 1 {
      RenderHead(rest[1..]);
      assert t[o + |seg|] == t[o..][|seg|];
    }
  }

  /** A placed text can be read back by slicing. */
  lemma PlacedSlice(t: string, o: nat, x: string, i: nat, j: nat)
    requires Placed(t, o, x) && i <= j <= |x|
    ensures t[o + i..o + j] == x[i..j]
  {
    forall m | 0 <= m < j - i ensures t[o + i..o + j][m] == x[i..j][m] {
      assert x[i + m] == x[i..j][m];
    }
  }

  /** A text placed at `o` holds its second part right after its first. */
  lemma PlacedSuffix(t: string, o: nat, x: string, y: string)
    requires Placed(t, o, x + y)
    ensures Placed(t, o + |x|, y)
  {
    forall m | 0 <= m < |y| ensures t[o + |x| + m] == y[m] {
      assert t[o + (|x| + m)] == (x + y)[|x| + m];
    }
  }

  /** A rendered sheet that is not empty starts with the space before its first number. */
  lemma RenderHead(qs: seq<Question>)
    requires |qs| > 0
    ensures Render(qs) != "" && Render(qs)[0] == ' '
  {
    assert Segment(qs[0])[0] == ' ';
  }

  /** The question number is found at the start of a question's text. */
  lemma SegmentMarker(t: string, o: nat, digits: string, body: string)
    requires Placed(t, o, " " + digits + ". " + body)
    requires |digits| >= 1 && AllDigits(digits) && body != "" && !IsSpace(body[0])
    ensures MatchAt(QuestionMarker, t, o)
         == Some(Match(o, o + |digits| + 3, [Span(o + 1, o + 1 + |digits|)]))
  {
    var n := |digits|;
    var seg := " " + digits + ". " + body;
    assert t[o + 0] == seg[0] == ' ';
    forall m | o + 1 <= m < o + 1 + n ensures IsDigit(t[m]) {
      assert t[o + (m - o)] == seg[m - o] == digits[m - o - 1];
    }
    assert t[o + 1 + n] == '.' && t[o + 2 + n] == ' ' by {
      assert seg[1 + n] == '.' && seg[2 + n] == ' ';
    }
    assert t[o + 3 + n] == body[0] by {
      assert seg[3 + n] == body[0];
    }
    RunEndIs(Digit, t, o + 1, o + 1 + n);
    RunEndIs(Space, t, o + 2 + n, o + 3 + n);
  }

  /** Inside a question's text no question number is found. */
  lemma BodyNoMarker(t: string, o: nat, x: string, i: nat)
    requires Placed(t, o, x) && (o + |x| == |t| || IsSpace(t[o + |x|]))
    requires NoNumberAfterSpace(x) && i < |x|
    ensures MatchAt(QuestionMarker, t, o + i).None?
  {
    assert t[o + i] == x[i];
    if IsSpace(x[i]) {
      var dx := RunEnd(Digit, x, i + 1);
      RunEndFacts(Digit, x, i + 1);
      PlacedSlice(t, o, x, i + 1, dx);
      if dx < |x| {
        assert t[o + dx] == x[dx];
      }
      RunEndIs(Digit, t, o + i + 1, o + dx);
      assert !NumberAt(x, i);
      if dx > i + 1 && dx < |x| && x[dx] == '.' {
        assert dx + 1 < |x| && !IsSpace(x[dx + 1]);
        assert t[o + dx] == x[dx] && t[o + (dx + 1)] == x[dx + 1];
        RunEndIs(Space, t, o + dx + 1, o + dx + 1);
      }
    }
  }

  /** No question number is found anywhere inside a question's text. */
  lemma BodyClear(t: string, o: nat, x: string)
    requires Placed(t, o, x) && (o + |x| == |t| || IsSpace(t[o + |x|]))
    requires NoNumberAfterSpace(x)
    ensures NoMatchIn(QuestionMarker, t, o, o + |x|)
  {
    forall i | o <= i < o + |x| ensures MatchAt(QuestionMarker, t, i).None? {
      BodyNoMarker(t, o, x, i - o);
    }
  }

  /** Where a question's text sits at `o`, the search from `o` finds its number there. */
  lemma StepSearch(t: string, o: nat, q: Question)
    requires Placed(t, o, Segment(q)) && WellFormed(q)
    ensures Search(QuestionMarker, t, o) == Some(Marker(o, q.id))
  {
    BodyShape(q.stem, q.options.a, q.options.b, q.options.c, q.options.d);
    SegmentMarker(t, o, NatToString(q.id), Body(q));
  }

  /**
    Where a question's text sits at `o`, followed by a space or the end,
    nothing between the end of its number and the end of its text matches.
   */
  lemma SkipBody(t: string, o: nat, start: nat, stop: nat, digits: string, body: string)
    requires Placed(t, o, " " + digits + ". " + body)
    requires start == o + |digits| + 3 && stop == start + |body|
    requires stop == |t| || t[stop] == ' '
    requires NoNumberAfterSpace(body)
    ensures stop <= |t|
    ensures FindAll(QuestionMarker, t, start) == FindAll(QuestionMarker, t, stop)
  {
    assert Placed(t, start, body) by {
      PlacedSuffix(t, o, " " + digits + ". ", body);
    }
    SkipClear(t, start, stop, body);
  }

  /** A search that starts at a placed question text resumes after it. */
  lemma SkipClear(t: string, start: nat, stop: nat, body: string)
    requires Placed(t, start, body) && stop == start + |body|
    requires stop == |t| || t[stop] == ' '
    requires NoNumberAfterSpace(body)
    ensures FindAll(QuestionMarker, t, start) == FindAll(QuestionMarker, t, stop)
  {
    BodyClear(t, start, body);
    FindAllSkips(QuestionMarker, t, start, stop);
  }

  lemma StepSkip(t: string, o: nat, e: nat, next: nat, q: Question)
    requires Placed(t, o, Segment(q))
    requires e == Marker(o, q.id).end && next == o + |Segment(q)|
    requires next == |t| || t[next] == ' '
    requires NoNumberAfterSpace(Body(q))
    ensures e <= next <= |t|
    ensures FindAll(QuestionMarker, t, e) == FindAll(QuestionMarker, t, next)
  {
    SkipBody(t, o, e, next, NatToString(q.id), Body(q));
  }

  lemma ReadyTail(qs: seq<Question>)
    requires SheetReady(qs) && |qs| > 0
    ensures SheetReady(qs[1..]) && WellFormed(qs[0]) && NoNumberAfterSpace(Body(qs[0]))
  {
    assert forall k :: 0 <= k < |qs| - 1 ==> qs[1..][k] == qs[k + 1];
  }

  /** The search from the start of a rendered tail finds the first question's number at its start. */
  lemma StepFound(t: string, o: nat, next: nat, rest: seq<Question>)
    requires Tail(t, o, rest) && |rest| > 0 && next == o + |Segment(rest[0])|
    requires WellFormed(rest[0]) && NoNumberAfterSpace(Body(rest[0]))
    ensures next <= |t| && Tail(t, next, rest[1..])
    ensures FindAll(QuestionMarker, t, o) == [Marker(o, rest[0].id)] + FindAll(QuestionMarker, t, next)
  {
    var q := rest[0];
    var m := Marker(o, q.id);
    assert Placed(t, o, Segment(q)) && Tail(t, next, rest[1..]) && (next == |t| || t[next] == ' ') by {
      TailSplit(t, o, rest);
    }
    assert Search(QuestionMarker, t, o) == Some(m) by {
      StepSearch(t, o, q);
    }
    assert m.end <= next <= |t| && FindAll(QuestionMarker, t, m.end) == FindAll(QuestionMarker, t, next) by {
      StepSkip(t, o, m.end, next, q);
    }
    assert FindAll(QuestionMarker, t, o) == [m] + FindAll(QuestionMarker, t, m.end);
  }

  lemma StepFrom(t: string, o: nat, next: nat, rest: seq<Question>)
    requires Tail(t, o, rest) && SheetReady(rest) && |rest| > 0 && next == o + |Segment(rest[0])|
    ensures next <= |t| && Tail(t, next, rest[1..]) && SheetReady(rest[1..])
    ensures FindAll(QuestionMarker, t, o) == [Marker(o, rest[0].id)] + FindAll(QuestionMarker, t, next)
  {
    ReadyTail(rest);
    StepFound(t, o, next, rest);
  }

  /** At the end of the text there is nothing left to find. */
  lemma EndFindsNothing(t: string, o: nat, rest: seq<Question>)
    requires Tail(t, o, rest) && |rest| == 0
    ensures FindAll(QuestionMarker, t, o) == [] == MarkersFrom(o, rest)
  {
    assert o == |t|;
    assert MatchAt(QuestionMarker, t, o).None?;
  }

  /** From the start of a rendered tail on, the number matches are exactly those of its questions. */
  lemma {:induction false} FindAllFrom(t: string, o: nat, rest: seq<Question>)
    requires Tail(t, o, rest) && SheetReady(rest)
    ensures FindAll(QuestionMarker, t, o) == MarkersFrom(o, rest)
    decreases |rest|, 1
  {
    if |rest| == 0 {
      EndFindsNothing(t, o, rest);
    } else {
      FindAllFromCons(t, o, rest);
    }
  }

  lemma {:induction false} FindAllFromCons(t: string, o: nat, rest: seq<Question>)
    requires Tail(t, o, rest) && SheetReady(rest) && |rest| > 0
    ensures FindAll(QuestionMarker, t, o) == MarkersFrom(o, rest)
    decreases |rest|, 0
  {
    var next := o + |Segment(rest[0])|;
    StepFrom(t, o, next, rest);
    FindAllFrom(t, next, rest[1..]);
    MarkersJoin(t, o, next, rest);
  }

  /** The first question's number match, then those of the others. */
  lemma MarkersJoin(t: string, o: nat, next: nat, rest: seq<Question>)
    requires |rest| > 0 && next == o + |Segment(rest[0])| && o <= next <= |t|
    requires FindAll(QuestionMarker, t, o) == [Marker(o, rest[0].id)] + FindAll(QuestionMarker, t, next)
    requires FindAll(QuestionMarker, t, next) == MarkersFrom(next, rest[1..])
    ensures FindAll(QuestionMarker, t, o) == MarkersFrom(o, rest)
  {
    MarkersStep(o, next, rest);
  }

  /** The blocks a well-formed sheet is cut into: one per question, its number and its text. */
  function Sheet(qs: seq<Question>): (bs: seq<Block>)
    ensures |bs| == |qs|
  {
    seq(|qs|, k requires 0 <= k < |qs| => Block(qs[k].id, Body(qs[k])))
  }

  lemma DigitsSlice(t: string, o: nat, digits: string, body: string)
    requires Placed(t, o, " " + digits + ". " + body)
    ensures o + |digits| + 3 + |body| <= |t| && t[o + 1..o + 1 + |digits|] == digits
  {
    var seg := " " + digits + ". " + body;
    PlacedSlice(t, o, seg, 1, 1 + |digits|);
    assert seg[1..1 + |digits|] == digits;
  }

  lemma BodySlice(t: string, o: nat, digits: string, body: string)
    requires Placed(t, o, " " + digits + ". " + body)
    ensures o + |digits| + 3 + |body| <= |t|
    ensures t[o + |digits| + 3..o + |digits| + 3 + |body|] == body
  {
    var seg := " " + digits + ". " + body;
    PlacedSlice(t, o, seg, |digits| + 3, |seg|);
    assert seg[|digits| + 3..|seg|] == body;
  }

  /** The number of a question placed at `o` reads as its id, and its text follows it. */
  lemma NumberRead(t: string, o: nat, q: Question)
    requires Placed(t, o, Segment(q))
    ensures var m := Marker(o, q.id);
      && m.end <= o + |Segment(q)| <= |t| && m.groups[0].hi <= |t|
      && NonEmptyDigits(t, m.groups[0]) && GroupValue(t, m.groups[0]) == q.id
      && t[m.end..o + |Segment(q)|] == Body(q)
  {
    var digits := NatToString(q.id);
    DigitsSlice(t, o, digits, Body(q));
    BodySlice(t, o, digits, Body(q));
    ValueOfString(q.id);
  }

  /** Each number match of a rendered tail gives its question's id and text. */
  lemma {:induction false} BlocksFrom(t: string, o: nat, rest: seq<Question>, j: nat)
    requires Tail(t, o, rest) && j < |rest|
    ensures var ms := MarkersFrom(o, rest);
      && ms[j].end <= NextStart(ms, j, |t|) <= |t| && ms[j].groups[0].hi <= |t|
      && NonEmptyDigits(t, ms[j].groups[0]) && GroupValue(t, ms[j].groups[0]) == rest[j].id
      && t[ms[j].end..NextStart(ms, j, |t|)] == Body(rest[j])
    decreases |rest|
  {
    var ms := MarkersFrom(o, rest);
    var next := o + |Segment(rest[0])|;
    var ms' := MarkersFrom(next, rest[1..]);
    TailSplit(t, o, rest);
    assert ms == [Marker(o, rest[0].id)] + ms';
    if j == 0 {
      NumberRead(t, o, rest[0]);
      if |rest| == 1 {
        assert Render(rest[1..]) == "";
        assert next == |t|;
      }
      assert NextStart(ms, 0, |t|) == next;
    } else {
      BlocksFrom(t, next, rest[1..], j - 1);
      assert ms[j] == ms'[j - 1];
      assert NextStart(ms, j, |t|) == NextStart(ms', j - 1, |t|);
      assert rest[1..][j - 1] == rest[j];
    }
  }

  /** A sheet is cut into exactly one block per question, holding its number and its text. */
  lemma SheetBlocks(qs: seq<Question>)
    requires SheetReady(qs)
    ensures Blocks(Render(qs)) == Sheet(qs)
  {
    var t := Render(qs);
    assert Tail(t, 0, qs) by {
      assert t[0..] == t;
    }
    FindAllFrom(t, 0, qs);
    var ms := FindAll(QuestionMarker, t, 0);
    forall k | 0 <= k < |qs| ensures Blocks(t)[k] == Sheet(qs)[k] {
      BlocksFrom(t, 0, qs, k);
    }
  }

  // ---------------------------------------------- normalised layout

  lemma LabelCollapsed(letter: char)
    requires !IsSpace(letter)
    ensures IsCollapsed([' ', letter, ')', ' '])
  {
    var s := [' ', letter, ')', ' '];
    forall i | 0 <= i < |s| - 1 ensures !DoubleSpace(s, i) {
    }
  }

  /** A label ` X) ` after text that ends in a non-space. */
  lemma AppendLabel(x: string, letter: char)
    requires IsCollapsed(x) && x != "" && !IsSpace(x[|x| - 1]) && !IsSpace(letter)
    ensures var y := x + [' ', letter, ')', ' '];
      IsCollapsed(y) && y[|y| - 1] == ' ' && y[0] == x[0]
  {
    LabelCollapsed(letter);
    CollapsedJoin(x, [' ', letter, ')', ' ']);
  }

  /** Clean, non-empty text after a label. */
  lemma AppendField(x: string, y: string)
    requires IsCollapsed(x) && x != "" && x[|x| - 1] == ' ' && y != "" && Clean(y)
    ensures IsCollapsed(x + y) && !IsSpace((x + y)[|x + y| - 1]) && (x + y)[0] == x[0]
  {
    CollapsedJoin(x, y);
  }

  lemma BodyCollapsed(q: Question)
    requires WellFormed(q)
    ensures IsCollapsed(Body(q))
  {
    var o := q.options;
    assert " A) " == [' ', 'A', ')', ' '] && " B) " == [' ', 'B', ')', ' '];
    assert " C) " == [' ', 'C', ')', ' '] && " D) " == [' ', 'D', ')', ' '];
    AppendLabel(q.stem, 'A');
    AppendField(q.stem + " A) ", o.a);
    AppendLabel(q.stem + " A) " + o.a, 'B');
    AppendField(q.stem + " A) " + o.a + " B) ", o.b);
    AppendLabel(q.stem + " A) " + o.a + " B) " + o.b, 'C');
    AppendField(q.stem + " A) " + o.a + " B) " + o.b + " C) ", o.c);
    AppendLabel(q.stem + " A) " + o.a + " B) " + o.b + " C) " + o.c, 'D');
    AppendField(q.stem + " A) " + o.a + " B) " + o.b + " C) " + o.c + " D) ", o.d);
  }

  lemma SegmentCollapsed(q: Question)
    requires WellFormed(q)
    ensures IsCollapsed(Segment(q)) && Segment(q)[|Segment(q)| - 1] == q.options.d[|q.options.d| - 1]
  {
    var lead := " " + NatToString(q.id) + ". ";
    LeadCollapsed(NatToString(q.id));
    BodyShape(q.stem, q.options.a, q.options.b, q.options.c, q.options.d);
    BodyCollapsed(q);
    CollapsedJoin(lead, Body(q));
  }

  /** The ` N. ` before a question's text is normalised. */
  lemma LeadCollapsed(digits: string)
    requires |digits| >= 1 && AllDigits(digits)
    ensures IsCollapsed(" " + digits + ". ")
  {
    assert IsCollapsed(" ") && IsCollapsed(". ");
    DigitsCollapsed(digits);
    CollapsedJoin(" ", digits);
    CollapsedJoin(" " + digits, ". ");
  }

  lemma DigitsCollapsed(digits: string)
    requires AllDigits(digits)
    ensures IsCollapsed(digits)
  {
    forall i | 0 <= i < |digits| ensures !IsSpace(digits[i]) {
      assert IsDigit(digits[i]);
    }
  }

  lemma {:induction false} RenderCollapsed(qs: seq<Question>)
    requires forall k :: 0 <= k < |qs| ==> WellFormed(qs[k])
    ensures IsCollapsed(Render(qs))
    decreases |qs|
  {
    if |qs| > 0 {
      SegmentCollapsed(qs[0]);
      RenderCollapsed(qs[1..]);
      if |qs| > 1 {
        RenderHead(qs[1..]);
      }
      CollapsedJoin(Segment(qs[0]), Render(qs[1..]));
    }
  }

  // --------------------------------------------------- the round trip

  lemma SheetCollapsed(qs: seq<Question>)
    requires forall k :: 0 <= k < |qs| ==> WellFormed(qs[k])
    ensures forall k :: 0 <= k < |qs| ==> IsCollapsed(Sheet(qs)[k].content)
  {
    forall k | 0 <= k < |qs| ensures IsCollapsed(Sheet(qs)[k].content) {
      BodyCollapsed(qs[k]);
    }
  }

  lemma CollapsedCons(b: Block, bs: seq<Block>)
    requires IsCollapsed(b.content) && forall k :: 0 <= k < |bs| ==> IsCollapsed(bs[k].content)
    ensures forall k :: 0 <= k < |[b] + bs| ==> IsCollapsed(([b] + bs)[k].content)
  {
    var all := [b] + bs;
    assert forall k :: 1 <= k < |all| ==> all[k] == bs[k - 1];
  }

  lemma ParseCons(b: Block, bs: seq<Block>, q: Question)
    requires IsCollapsed(b.content) && forall k :: 0 <= k < |bs| ==> IsCollapsed(bs[k].content)
    requires ParseBlock(b) == Some(q)
    ensures forall k :: 0 <= k < |[b] + bs| ==> IsCollapsed(([b] + bs)[k].content)
    ensures ParseBlocks([b] + bs) == [q] + ParseBlocks(bs)
  {
    CollapsedCons(b, bs);
    var all := [b] + bs;
    assert all[0] == b && all[1..] == bs;
  }

  /** One question's block parses back to the question, and its text is normalised. */
  lemma HeadParses(q: Question)
    requires WellFormed(q)
    ensures IsCollapsed(Body(q)) && ParseBlock(Block(q.id, Body(q))) == Some(q)
  {
    BlockRoundTrip(q);
    BodyCollapsed(q);
  }

  lemma SheetCons(qs: seq<Question>)
    requires |qs| > 0
    ensures Sheet(qs) == [Block(qs[0].id, Body(qs[0]))] + Sheet(qs[1..])
  {
  }

  lemma WellFormedTail(qs: seq<Question>)
    requires |qs| > 0 && forall k :: 0 <= k < |qs| ==> WellFormed(qs[k])
    ensures WellFormed(qs[0]) && forall k :: 0 <= k < |qs[1..]| ==> WellFormed(qs[1..][k])
  {
  }

  lemma HeadTail(qs: seq<Question>)
    requires |qs| > 0
    ensures [qs[0]] + qs[1..] == qs
  {
  }

  lemma {:induction false} ParseSheet(qs: seq<Question>)
    requires forall k :: 0 <= k < |qs| ==> WellFormed(qs[k])
    ensures forall k :: 0 <= k < |qs| ==> IsCollapsed(Sheet(qs)[k].content)
    ensures ParseBlocks(Sheet(qs)) == qs
    decreases |qs|
  {
    SheetCollapsed(qs);
    if |qs| > 0 {
      var head := Block(qs[0].id, Body(qs[0]));
      var rest := Sheet(qs[1..]);
      WellFormedTail(qs);
      assert (forall k :: 0 <= k < |rest| ==> IsCollapsed(rest[k].content))
          && ParseBlocks(rest) == qs[1..] by {
        ParseSheet(qs[1..]);
      }
      assert IsCollapsed(head.content) && ParseBlock(head) == Some(qs[0]) by {
        HeadParses(qs[0]);
      }
      assert Sheet(qs) == [head] + rest by {
        SheetCons(qs);
      }
      ParseCons(head, rest, qs[0]);
      HeadTail(qs);
    }
  }

  /**
    A sheet written in the expected layout parses back to the questions it was
    made of: the same questions, with the same numbers and texts, in the same order.
   */
  lemma SheetRoundTrip(qs: seq<Question>)
    requires SheetReady(qs)
    ensures ParseQuestions(Render(qs)) == qs
  {
    RenderCollapsed(qs);
    CollapseFixedIff(Render(qs));
    SheetBlocks(qs);
    ParseSheet(qs);
  }
}
