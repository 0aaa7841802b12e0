/**
  The seven regular expressions of the extractor, each as a hand-written
  scanner, and Python's leftmost, non-overlapping search over them
  (`re.search`, `re.finditer`, and through those `re.split`).

  Every pattern below is deterministic once its greedy quantifiers have been
  resolved by hand: where the regex engine would backtrack, the scanner takes
  the one alternative that can succeed.
 */
module Scan {
  import opened Text
  import opened Numbers

  datatype CharClass = Space | Digit | NotPipe | NotPipeOrHash | NonWord | SpaceOrPipe | NotQuoteOrPipe

  predicate InClass(k: CharClass, c: char) {
    match k
    case Space => IsSpace(c)
    case Digit => IsDigit(c)
    case NotPipe => c != '|'
    case NotPipeOrHash => c != '|' && c != '#'
    case NonWord => !IsWordChar(c)
    case SpaceOrPipe => IsSpace(c) || c == '|'
    case NotQuoteOrPipe => c != '"' && c != '|'
  }

  /** End of the longest run of class-`k` characters starting at `i`: a greedy `k*`. */
  function RunEnd(k: CharClass, t: string, i: nat): (j: nat)
    requires i <= |t|
    ensures i <= j <= |t|
    decreases |t| - i
  {
    if i == |t| || !InClass(k, t[i]) then i else RunEnd(k, t, i + 1)
  }

  /** Every character of `s` is of class `k`. */
  predicate AllIn(k: CharClass, s: string) {
    forall i :: 0 <= i < |s| ==> InClass(k, s[i])
  }

  /** The run is maximal: everything in it is of class `k` and the next character is not. */
  lemma {:induction false} RunEndFacts(k: CharClass, t: string, i: nat)
    requires i <= |t|
    ensures AllIn(k, t[i..RunEnd(k, t, i)])
    ensures RunEnd(k, t, i) == |t| || !InClass(k, t[RunEnd(k, t, i)])
    decreases |t| - i
  {
    if i < |t| && InClass(k, t[i]) {
      var j := RunEnd(k, t, i + 1);
      RunEndFacts(k, t, i + 1);
      assert t[i..j] == [t[i]] + t[i + 1..j];
    }
  }

  /** A run that is known to stop at `j` ends there. */
  lemma {:induction false} RunEndIs(k: CharClass, t: string, i: nat, j: nat)
    requires i <= j <= |t|
    requires AllIn(k, t[i..j])
    requires j == |t| || !InClass(k, t[j])
    ensures RunEnd(k, t, i) == j
    decreases j - i
  {
    if i < j {
      assert t[i..j][0] == t[i];
      assert t[i + 1..j] == t[i..j][1..];
      RunEndIs(k, t, i + 1, j);
    }
  }

  /** Two adjacent runs of class `k` make one. */
  lemma AllInJoin(k: CharClass, t: string, a: nat, b: nat, c: nat)
    requires a <= b <= c <= |t| && AllIn(k, t[a..b]) && AllIn(k, t[b..c])
    ensures AllIn(k, t[a..c])
  {
    forall i | 0 <= i < c - a ensures InClass(k, t[a..c][i]) {
      if i < b - a {
        assert t[a..c][i] == t[a..b][i];
      } else {
        assert t[a..c][i] == t[b..c][i - (b - a)];
      }
    }
  }

  /** End of a greedy `\*?\*?` starting at `i`. */
  function Stars(t: string, i: nat): (j: nat)
    requires i <= |t|
    ensures i <= j <= |t| && j <= i + 2
  {
    if i < |t| && t[i] == '*' then
      if i + 1 < |t| && t[i + 1] == '*' then i + 2 else i + 1
    else i
  }

  predicate CharAt(t: string, i: nat, c: char) {
    i < |t| && t[i] == c
  }

  /** `[A-D]` at `i`. */
  predicate LetterAt(t: string, i: nat) {
    i < |t| && 'A' <= t[i] <= 'D'
  }

  /** A capture group: the half-open index range `[lo, hi)` of the text. */
  datatype Span = Span(lo: nat, hi: nat)

  datatype Match = Match(start: nat, end: nat, groups: seq<Span>)

  function Slice(t: string, sp: Span): string
    requires sp.lo <= sp.hi <= |t|
  {
    t[sp.lo..sp.hi]
  }

  predicate NonEmptyDigits(t: string, sp: Span)
    requires sp.hi <= |t|
  {
    sp.lo < sp.hi && AllDigits(t[sp.lo..sp.hi])
  }

  /** `int()` of a `(\d+)` group. */
  function GroupValue(t: string, sp: Span): nat
    requires sp.hi <= |t| && NonEmptyDigits(t, sp)
  {
    DigitsValue(t[sp.lo..sp.hi])
  }

  /** `m` is a non-empty match starting at `i` with `n` groups, all inside it. */
  predicate Framed(m: Match, t: string, i: nat, n: nat) {
    && m.start == i && i < m.end <= |t| && |m.groups| == n
    && forall g :: 0 <= g < n ==> i <= m.groups[g].lo <= m.groups[g].hi <= m.end
  }

  datatype Pattern =
    | QuestionMarker  // \s(\d+)\.\s+
    | AnswerRow       // \|\s*\*?\*?(\d+)\.\*?\*?\s*\|\s*\*?\*?([A-D])\*?\*?\s*\|\s*([^|]+)
    | LooseAnswer     // (\d+)[^\w]+([A-D])(?:\s|\|)+
    | ChapterHeader   // ## QUESTIONS\s*(\d+)\s*-\s*(\d+)\s*:\s*(Chapter\s+\d+[^|#]+)   (ignoring case)
    | SourceRow       // \|\s*(\d+)\s*\|([^|]+)\|([^|]+)
    | DocumentName    // (ENT\s+101[^"|]+\.pdf)   (ignoring case)
    | Citation        // \[\[(\d+)\]\]

  function GroupCount(p: Pattern): nat {
    match p
    case QuestionMarker => 1
    case AnswerRow => 3
    case LooseAnswer => 2
    case ChapterHeader => 3
    case SourceRow => 3
    case DocumentName => 1
    case Citation => 1
  }

  // ---------------------------------------------------------------- shapes

  predicate MarkerShape(t: string, m: Match)
    requires Framed(m, t, m.start, 1)
  {
    var num := m.groups[0];
    && IsSpace(t[m.start]) && num.lo == m.start + 1 && NonEmptyDigits(t, num)
    && num.hi + 1 < m.end && t[num.hi] == '.'
    && AllIn(Space, t[num.hi + 1..m.end])
  }

  predicate AnswerRowShape(t: string, m: Match)
    requires Framed(m, t, m.start, 3)
  {
    var num, letter, expl := m.groups[0], m.groups[1], m.groups[2];
    && t[m.start] == '|' && NonEmptyDigits(t, num) && CharAt(t, num.hi, '.')
    && letter.hi == letter.lo + 1 && LetterAt(t, letter.lo)
    && expl.lo < expl.hi == m.end && AllIn(NotPipe, t[expl.lo..expl.hi])
  }

  predicate LooseShape(t: string, m: Match)
    requires Framed(m, t, m.start, 2)
  {
    var num, letter := m.groups[0], m.groups[1];
    && num.lo == m.start && NonEmptyDigits(t, num)
    && num.hi < letter.lo && AllIn(NonWord, t[num.hi..letter.lo])
    && letter.hi == letter.lo + 1 && LetterAt(t, letter.lo)
    && letter.hi < m.end && AllIn(SpaceOrPipe, t[letter.hi..m.end])
  }

  predicate ChapterShape(t: string, m: Match)
    requires Framed(m, t, m.start, 3)
  {
    var first, last, title := m.groups[0], m.groups[1], m.groups[2];
    && CiLiteralAt(t, m.start, "## QUESTIONS")
    && NonEmptyDigits(t, first) && NonEmptyDigits(t, last) && first.hi <= last.lo
    && CiLiteralAt(t, title.lo, "Chapter") && title.hi == m.end && last.hi < title.lo
    && title.lo + 7 < title.hi
    && AllIn(NotPipeOrHash, t[title.lo + 7..title.hi])
  }

  predicate SourceRowShape(t: string, m: Match)
    requires Framed(m, t, m.start, 3)
  {
    var num, topic, reference := m.groups[0], m.groups[1], m.groups[2];
    && t[m.start] == '|' && NonEmptyDigits(t, num)
    && num.hi < topic.lo && topic.lo < topic.hi && CharAt(t, topic.hi, '|')
    && reference.lo == topic.hi + 1 && reference.lo < reference.hi == m.end
    && AllIn(NotPipe, t[topic.lo..topic.hi]) && AllIn(NotPipe, t[reference.lo..reference.hi])
  }

  predicate DocumentShape(t: string, m: Match)
    requires Framed(m, t, m.start, 1)
  {
    && m.groups[0] == Span(m.start, m.end)
    && CiLiteralAt(t, m.start, "ENT") && m.start + 4 < m.end && CiLiteralAt(t, m.end - 4, ".pdf")
  }

  predicate CitationShape(t: string, m: Match)
    requires Framed(m, t, m.start, 1)
  {
    && LiteralAt(t, m.start, "[[") && m.start + 2 < m.end - 2
    && m.groups[0] == Span(m.start + 2, m.end - 2) && NonEmptyDigits(t, m.groups[0])
    && LiteralAt(t, m.end - 2, "]]")
  }

  /** What a match of `p` guarantees about the text under it. */
  predicate Shape(p: Pattern, t: string, m: Match)
    requires Framed(m, t, m.start, GroupCount(p))
  {
    match p
    case QuestionMarker => MarkerShape(t, m)
    case AnswerRow => AnswerRowShape(t, m)
    case LooseAnswer => LooseShape(t, m)
    case ChapterHeader => ChapterShape(t, m)
    case SourceRow => SourceRowShape(t, m)
    case DocumentName => DocumentShape(t, m)
    case Citation => CitationShape(t, m)
  }

  // -------------------------------------------------------------- scanners

  /** A run of digits is a `(\d+)` group. */
  lemma DigitSpan(t: string, lo: nat, hi: nat)
    requires lo < hi <= |t| && AllIn(Digit, t[lo..hi])
    ensures NonEmptyDigits(t, Span(lo, hi))
  {
    var s := t[lo..hi];
    forall k | 0 <= k < |s| ensures IsDigit(s[k]) {
      assert InClass(Digit, s[k]);
    }
  }

  function MarkerAt(t: string, i: nat): (r: Option<Match>)
    requires i <= |t|
    ensures r.Some? ==> Framed(r.value, t, i, 1)
  {
    if !(i < |t| && IsSpace(t[i])) then None
    else
      var d := RunEnd(Digit, t, i + 1);
      if d == i + 1 || !CharAt(t, d, '.') then None
      else
        var e := RunEnd(Space, t, d + 1);
        if e == d + 1 then None
        else Some(Match(i, e, [Span(i + 1, d)]))
  }

  lemma MarkerAtShape(t: string, i: nat)
    requires i <= |t| && MarkerAt(t, i).Some?
    ensures MarkerShape(t, MarkerAt(t, i).value)
  {
    var d := RunEnd(Digit, t, i + 1);
    RunEndFacts(Digit, t, i + 1);
    DigitSpan(t, i + 1, d);
    RunEndFacts(Space, t, d + 1);
  }

  function AnswerRowAt(t: string, i: nat): (r: Option<Match>)
    requires i <= |t|
    ensures r.Some? ==> Framed(r.value, t, i, 3)
  {
    if !CharAt(t, i, '|') then None
    else
      var b := Stars(t, RunEnd(Space, t, i + 1));
      var d := RunEnd(Digit, t, b);
      if d == b || !CharAt(t, d, '.') then None
      else
        var e := RunEnd(Space, t, Stars(t, d + 1));
        if !CharAt(t, e, '|') then None
        else
          var g := Stars(t, RunEnd(Space, t, e + 1));
          if !LetterAt(t, g) then None
          else AnswerRowTail(t, i, Span(b, d), g)
  }

  /** The rest of an answer row after its letter: `\*?\*?\s*\|\s*([^|]+)`. */
  function AnswerRowTail(t: string, i: nat, num: Span, g: nat): (r: Option<Match>)
    requires i < num.lo <= num.hi < g < |t|
    ensures r.Some? ==> Framed(r.value, t, i, 3)
  {
    var k := RunEnd(Space, t, Stars(t, g + 1));
    if !CharAt(t, k, '|') then None
    else
      var w := RunEnd(Space, t, k + 1);
      var x := RunEnd(NotPipe, t, w);
      if x > w then Some(Match(i, x, [num, Span(g, g + 1), Span(w, x)]))
      // `\s*` gives back its last character so that `[^|]+` can match it
      else if w > k + 1 then Some(Match(i, w, [num, Span(g, g + 1), Span(w - 1, w)]))
      else None
  }

  lemma AnswerRowAtShape(t: string, i: nat)
    requires i <= |t| && AnswerRowAt(t, i).Some?
    ensures AnswerRowShape(t, AnswerRowAt(t, i).value)
  {
    var b, d, g := AnswerRowAtBranches(t, i);
    RunEndFacts(Digit, t, b);
    DigitSpan(t, b, d);
    AnswerRowTailShape(t, i, Span(b, d), g);
  }

  /** The tests a table-row match passed before its tail was scanned. */
  lemma AnswerRowAtBranches(t: string, i: nat) returns (b: nat, d: nat, g: nat)
    requires i <= |t| && AnswerRowAt(t, i).Some?
    ensures b == Stars(t, RunEnd(Space, t, i + 1)) && d == RunEnd(Digit, t, b)
    ensures i < b < d < g < |t| && t[i] == '|' && CharAt(t, d, '.') && LetterAt(t, g)
    ensures AnswerRowAt(t, i) == AnswerRowTail(t, i, Span(b, d), g)
  {
    b := Stars(t, RunEnd(Space, t, i + 1));
    d := RunEnd(Digit, t, b);
    var e := RunEnd(Space, t, Stars(t, d + 1));
    g := Stars(t, RunEnd(Space, t, e + 1));
  }

  /** The last character of a run of whitespace is not `|`. */
  lemma SpaceNotPipe(t: string, a: nat, w: nat)
    requires a < w <= |t| && AllIn(Space, t[a..w])
    ensures AllIn(NotPipe, t[w - 1..w])
  {
    assert t[w - 1] == t[a..w][w - 1 - a];
    assert t[w - 1..w] == [t[w - 1]];
  }

  lemma AnswerRowTailShape(t: string, i: nat, num: Span, g: nat)
    requires i < num.lo <= num.hi < g < |t| && AnswerRowTail(t, i, num, g).Some?
    requires NonEmptyDigits(t, num) && CharAt(t, num.hi, '.') && LetterAt(t, g) && t[i] == '|'
    ensures AnswerRowShape(t, AnswerRowTail(t, i, num, g).value)
  {
    var k := RunEnd(Space, t, Stars(t, g + 1));
    var w := RunEnd(Space, t, k + 1);
    var x := RunEnd(NotPipe, t, w);
    if x > w {
      assert AnswerRowTail(t, i, num, g) == Some(Match(i, x, [num, Span(g, g + 1), Span(w, x)]));
      RunEndFacts(NotPipe, t, w);
    } else {
      assert AnswerRowTail(t, i, num, g) == Some(Match(i, w, [num, Span(g, g + 1), Span(w - 1, w)]));
      RunEndFacts(Space, t, k + 1);
      SpaceNotPipe(t, k + 1, w);
    }
  }

  function LooseAt(t: string, i: nat): (r: Option<Match>)
    requires i <= |t|
    ensures r.Some? ==> Framed(r.value, t, i, 2)
  {
    var d := RunEnd(Digit, t, i);
    if d == i then None
    else
      var n := RunEnd(NonWord, t, d);
      if n == d || !LetterAt(t, n) then None
      else
        var e := RunEnd(SpaceOrPipe, t, n + 1);
        if e == n + 1 then None
        else Some(Match(i, e, [Span(i, d), Span(n, n + 1)]))
  }

  lemma LooseAtShape(t: string, i: nat)
    requires i <= |t| && LooseAt(t, i).Some?
    ensures LooseShape(t, LooseAt(t, i).value)
  {
    var d := RunEnd(Digit, t, i);
    RunEndFacts(Digit, t, i);
    DigitSpan(t, i, d);
    var n := RunEnd(NonWord, t, d);
    RunEndFacts(NonWord, t, d);
    RunEndFacts(SpaceOrPipe, t, n + 1);
  }

  function ChapterAt(t: string, i: nat): (r: Option<Match>)
    requires i <= |t|
    ensures r.Some? ==> Framed(r.value, t, i, 3)
  {
    if !CiLiteralAt(t, i, "## QUESTIONS") then None
    else
      var a := RunEnd(Space, t, i + 12);
      var d1 := RunEnd(Digit, t, a);
      if d1 == a then None
      else
        var b := RunEnd(Space, t, d1);
        if !CharAt(t, b, '-') then None
        else
          var a2 := RunEnd(Space, t, b + 1);
          var d2 := RunEnd(Digit, t, a2);
          if d2 == a2 then None
          else ChapterTitle(t, i, Span(a, d1), Span(a2, d2))
  }

  /** The rest of a chapter header after its range: `\s*:\s*(Chapter\s+\d+[^|#]+)`. */
  function ChapterTitle(t: string, i: nat, first: Span, last: Span): (r: Option<Match>)
    requires i < first.lo <= first.hi <= last.lo <= last.hi <= |t|
    ensures r.Some? ==> Framed(r.value, t, i, 3)
  {
    var c := RunEnd(Space, t, last.hi);
    if !CharAt(t, c, ':') then None
    else
      var c1 := RunEnd(Space, t, c + 1);
      if !CiLiteralAt(t, c1, "Chapter") then None
      else ChapterNumber(t, i, first, last, c1)
  }

  /** The end of a chapter header's title: `\s+\d+[^|#]+` after the word `Chapter` at `c1`. */
  function ChapterNumber(t: string, i: nat, first: Span, last: Span, c1: nat): (r: Option<Match>)
    requires i < first.lo <= first.hi <= last.lo <= last.hi < c1 && c1 + 7 <= |t|
    ensures r.Some? ==> Framed(r.value, t, i, 3)
  {
    var s := RunEnd(Space, t, c1 + 7);
    if s == c1 + 7 then None
    else
      var d3 := RunEnd(Digit, t, s);
      var x := RunEnd(NotPipeOrHash, t, s);
      // `\d+` may give back its last digit so that `[^|#]+` can match it
      if d3 == s || !(x > d3 || d3 - s >= 2) then None
      else Some(Match(i, x, [first, last, Span(c1, x)]))
  }

  lemma ChapterAtShape(t: string, i: nat)
    requires i <= |t| && ChapterAt(t, i).Some?
    ensures ChapterShape(t, ChapterAt(t, i).value)
  {
    var a := RunEnd(Space, t, i + 12);
    var d1 := RunEnd(Digit, t, a);
    RunEndFacts(Digit, t, a);
    DigitSpan(t, a, d1);
    var b := RunEnd(Space, t, d1);
    var a2 := RunEnd(Space, t, b + 1);
    var d2 := RunEnd(Digit, t, a2);
    RunEndFacts(Digit, t, a2);
    DigitSpan(t, a2, d2);
    ChapterTitleShape(t, i, Span(a, d1), Span(a2, d2));
  }

  lemma ChapterTitleShape(t: string, i: nat, first: Span, last: Span)
    requires i < first.lo <= first.hi <= last.lo <= last.hi <= |t| && ChapterTitle(t, i, first, last).Some?
    requires CiLiteralAt(t, i, "## QUESTIONS") && NonEmptyDigits(t, first) && NonEmptyDigits(t, last)
    ensures ChapterShape(t, ChapterTitle(t, i, first, last).value)
  {
    var c := RunEnd(Space, t, last.hi);
    var c1 := RunEnd(Space, t, c + 1);
    ChapterNumberShape(t, i, first, last, c1);
  }

  /** Digits are neither `|` nor `#`, so the title's run reaches past the digits. */
  lemma {:induction false} DigitsInTitle(t: string, s: nat)
    requires s <= |t|
    ensures RunEnd(Digit, t, s) <= RunEnd(NotPipeOrHash, t, s)
    decreases |t| - s
  {
    if s < |t| && InClass(Digit, t[s]) {
      assert InClass(NotPipeOrHash, t[s]);
      DigitsInTitle(t, s + 1);
    }
  }

  lemma ChapterNumberShape(t: string, i: nat, first: Span, last: Span, c1: nat)
    requires i < first.lo <= first.hi <= last.lo <= last.hi < c1 && c1 + 7 <= |t|
    requires ChapterNumber(t, i, first, last, c1).Some?
    requires CiLiteralAt(t, i, "## QUESTIONS") && NonEmptyDigits(t, first) && NonEmptyDigits(t, last)
    requires CiLiteralAt(t, c1, "Chapter")
    ensures ChapterShape(t, ChapterNumber(t, i, first, last, c1).value)
  {
    var s := RunEnd(Space, t, c1 + 7);
    var x := RunEnd(NotPipeOrHash, t, s);
    DigitsInTitle(t, s);
    RunEndFacts(Space, t, c1 + 7);
    RunEndFacts(NotPipeOrHash, t, s);
    assert AllIn(NotPipeOrHash, t[c1 + 7..s]) by {
      assert AllIn(Space, t[c1 + 7..s]);
    }
    AllInJoin(NotPipeOrHash, t, c1 + 7, s, x);
  }

  function SourceRowAt(t: string, i: nat): (r: Option<Match>)
    requires i <= |t|
    ensures r.Some? ==> Framed(r.value, t, i, 3)
  {
    if !CharAt(t, i, '|') then None
    else
      var a := RunEnd(Space, t, i + 1);
      var d := RunEnd(Digit, t, a);
      if d == a then None
      else
        var b := RunEnd(Space, t, d);
        if !CharAt(t, b, '|') then None
        else
          var c := RunEnd(NotPipe, t, b + 1);
          if c == b + 1 || !CharAt(t, c, '|') then None
          else
            var e := RunEnd(NotPipe, t, c + 1);
            if e == c + 1 then None
            else Some(Match(i, e, [Span(a, d), Span(b + 1, c), Span(c + 1, e)]))
  }

  lemma SourceRowAtShape(t: string, i: nat)
    requires i <= |t| && SourceRowAt(t, i).Some?
    ensures SourceRowShape(t, SourceRowAt(t, i).value)
  {
    var a, d, b, c, e := SourceRowAtParts(t, i);
    SourceShapeOf(t, i, a, d, b, c, e);
  }

  /** A source-row match over positions that delimit its columns has the row's shape. */
  lemma SourceShapeOf(t: string, i: nat, a: nat, d: nat, b: nat, c: nat, e: nat)
    requires i < a < d <= b && b + 1 < c && c + 1 < e <= |t|
    requires CharAt(t, i, '|') && CharAt(t, b, '|') && CharAt(t, c, '|')
    requires NonEmptyDigits(t, Span(a, d))
    requires AllIn(NotPipe, t[b + 1..c]) && AllIn(NotPipe, t[c + 1..e])
    ensures Framed(Match(i, e, [Span(a, d), Span(b + 1, c), Span(c + 1, e)]), t, i, 3)
    ensures SourceRowShape(t, Match(i, e, [Span(a, d), Span(b + 1, c), Span(c + 1, e)]))
  {
  }

  /** The positions a source-row match is built from, read off the scanner. */
  lemma SourceRowAtParts(t: string, i: nat) returns (a: nat, d: nat, b: nat, c: nat, e: nat)
    requires i <= |t| && SourceRowAt(t, i).Some?
    ensures i < a < d <= b && b + 1 < c && c + 1 < e <= |t|
    ensures CharAt(t, i, '|') && CharAt(t, b, '|') && CharAt(t, c, '|')
    ensures NonEmptyDigits(t, Span(a, d))
    ensures AllIn(NotPipe, t[b + 1..c]) && AllIn(NotPipe, t[c + 1..e])
    ensures SourceRowAt(t, i).value == Match(i, e, [Span(a, d), Span(b + 1, c), Span(c + 1, e)])
  {
    a, d, b, c, e := SourceRowAtBranches(t, i);
    RunEndFacts(Digit, t, a);
    DigitSpan(t, a, d);
    RunEndFacts(NotPipe, t, b + 1);
    RunEndFacts(NotPipe, t, c + 1);
  }

  /** The tests a source-row match passed on its way through the scanner. */
  lemma SourceRowAtBranches(t: string, i: nat) returns (a: nat, d: nat, b: nat, c: nat, e: nat)
    requires i <= |t| && SourceRowAt(t, i).Some?
    ensures a == RunEnd(Space, t, i + 1) && d == RunEnd(Digit, t, a) && b == RunEnd(Space, t, d)
    ensures c == RunEnd(NotPipe, t, b + 1) && e == RunEnd(NotPipe, t, c + 1)
    ensures CharAt(t, i, '|') && a < d && CharAt(t, b, '|') && b + 1 < c && CharAt(t, c, '|') && c + 1 < e
    ensures SourceRowAt(t, i).value == Match(i, e, [Span(a, d), Span(b + 1, c), Span(c + 1, e)])
  {
    a := RunEnd(Space, t, i + 1);
    d := RunEnd(Digit, t, a);
    b := RunEnd(Space, t, d);
    c := RunEnd(NotPipe, t, b + 1);
    e := RunEnd(NotPipe, t, c + 1);
  }




  /** The largest `j` with `lo < j <= hi` where `.pdf` starts (ignoring case). */
  function LastPdf(t: string, lo: nat, hi: int): (r: Option<nat>)
    requires hi + 4 <= |t|
    ensures r.Some? ==> lo < r.value <= hi && CiLiteralAt(t, r.value, ".pdf")
    ensures r.Some? ==> forall j :: r.value < j <= hi ==> !CiLiteralAt(t, j, ".pdf")
    ensures r.None? ==> forall j :: lo < j <= hi ==> !CiLiteralAt(t, j, ".pdf")
    decreases hi
  {
    if hi <= lo then None
    else if CiLiteralAt(t, hi, ".pdf") then Some(hi)
    else LastPdf(t, lo, hi - 1)
  }

  function DocumentAt(t: string, i: nat): (r: Option<Match>)
    requires i <= |t|
    ensures r.Some? ==> Framed(r.value, t, i, 1)
  {
    if !CiLiteralAt(t, i, "ENT") then None
    else
      var s := RunEnd(Space, t, i + 3);
      if s == i + 3 || !LiteralAt(t, s, "101") then None
      else
        // `[^"|]+` is greedy: the match ends at the last `.pdf` inside its run
        var m := RunEnd(NotQuoteOrPipe, t, s + 3);
        match LastPdf(t, s + 3, m - 4)
        case None => None
        case Some(j) => Some(Match(i, j + 4, [Span(i, j + 4)]))
  }

  lemma DocumentAtShape(t: string, i: nat)
    requires i <= |t| && DocumentAt(t, i).Some?
    ensures DocumentShape(t, DocumentAt(t, i).value)
  {
  }

  function CitationAt(t: string, i: nat): (r: Option<Match>)
    requires i <= |t|
    ensures r.Some? ==> Framed(r.value, t, i, 1)
  {
    if !LiteralAt(t, i, "[[") then None
    else
      var d := RunEnd(Digit, t, i + 2);
      if d == i + 2 || !LiteralAt(t, d, "]]") then None
      else Some(Match(i, d + 2, [Span(i + 2, d)]))
  }

  lemma CitationAtShape(t: string, i: nat)
    requires i <= |t| && CitationAt(t, i).Some?
    ensures CitationShape(t, CitationAt(t, i).value)
  {
    var d := RunEnd(Digit, t, i + 2);
    RunEndFacts(Digit, t, i + 2);
    DigitSpan(t, i + 2, d);
  }

  /** The match of `p` that starts exactly at `i`, if any. */
  function MatchAt(p: Pattern, t: string, i: nat): (r: Option<Match>)
    requires i <= |t|
    ensures r.Some? ==> Framed(r.value, t, i, GroupCount(p))
  {
    match p
    case QuestionMarker => MarkerAt(t, i)
    case AnswerRow => AnswerRowAt(t, i)
    case LooseAnswer => LooseAt(t, i)
    case ChapterHeader => ChapterAt(t, i)
    case SourceRow => SourceRowAt(t, i)
    case DocumentName => DocumentAt(t, i)
    case Citation => CitationAt(t, i)
  }

  /** A match of `p` has the shape the pattern describes. */
  lemma MatchShape(p: Pattern, t: string, i: nat)
    requires i <= |t| && MatchAt(p, t, i).Some?
    ensures Shape(p, t, MatchAt(p, t, i).value)
  {
    match p
    case QuestionMarker => MarkerAtShape(t, i);
    case AnswerRow => AnswerRowAtShape(t, i);
    case LooseAnswer => LooseAtShape(t, i);
    case ChapterHeader => ChapterAtShape(t, i);
    case SourceRow => SourceRowAtShape(t, i);
    case DocumentName => DocumentAtShape(t, i);
    case Citation => CitationAtShape(t, i);
  }

  // ------------------------------------------------------------- searching

  /** The pattern matches at no position of `[a, b)`. */
  predicate NoMatchIn(p: Pattern, t: string, a: nat, b: nat)
    requires b <= |t| + 1
  {
    forall i :: a <= i < b ==> MatchAt(p, t, i).None?
  }

  /** Python's `re.search` from `from`: the leftmost match at or after `from`. */
  function Search(p: Pattern, t: string, from: nat): (r: Option<Match>)
    requires from <= |t|
    ensures r.Some? ==> from <= r.value.start < r.value.end <= |t|
    decreases |t| - from
  {
    var here := MatchAt(p, t, from);
    if here.Some? then here
    else if from == |t| then None
    else Search(p, t, from + 1)
  }

  lemma NoMatchExtend(p: Pattern, t: string, a: nat, b: nat)
    requires a < b <= |t| + 1 && MatchAt(p, t, a).None? && NoMatchIn(p, t, a + 1, b)
    ensures NoMatchIn(p, t, a, b)
  {
  }

  /**
    The search finds a real match, and it is the leftmost one: nothing
    matches between `from` and it (or anywhere from `from` to the end when
    nothing is found).
   */
  lemma {:induction false} SearchFound(p: Pattern, t: string, from: nat)
    requires from <= |t|
    ensures var r := Search(p, t, from);
      && (r.Some? ==> MatchAt(p, t, r.value.start) == r && NoMatchIn(p, t, from, r.value.start))
      && (r.None? ==> NoMatchIn(p, t, from, |t| + 1))
    decreases |t| - from
  {
    if MatchAt(p, t, from).None? && from < |t| {
      SearchFound(p, t, from + 1);
      var r := Search(p, t, from + 1);
      NoMatchExtend(p, t, from, if r.Some? then r.value.start else |t| + 1);
    }
  }

  /**
    Python's `re.finditer` from `from`: leftmost matches, each search resuming
    where the previous match ended.
   */
  function FindAll(p: Pattern, t: string, from: nat): (ms: seq<Match>)
    requires from <= |t|
    decreases |t| - from
  {
    match Search(p, t, from)
    case None => []
    case Some(m) => [m] + FindAll(p, t, m.end)
  }

  /**
    `finditer` reports nothing exactly when the pattern matches nowhere from
    `from` on, and otherwise its first report is the leftmost match.
   */
  lemma FindAllFirst(p: Pattern, t: string, from: nat)
    requires from <= |t|
    ensures var ms := FindAll(p, t, from);
      && (|ms| == 0 <==> NoMatchIn(p, t, from, |t| + 1))
      && (|ms| > 0 ==> from <= ms[0].start < |t| && MatchAt(p, t, ms[0].start) == Some(ms[0]))
      && (|ms| > 0 ==> NoMatchIn(p, t, from, ms[0].start))
  {
    SearchFound(p, t, from);
  }

  /** The matches found lie in `[from, |t|]`, in text order, and do not overlap. */
  predicate Ordered(ms: seq<Match>, from: nat, n: nat) {
    && (forall k :: 0 <= k < |ms| ==> from <= ms[k].start < ms[k].end <= n)
    && (forall j, k :: 0 <= j < k < |ms| ==> ms[j].end <= ms[k].start)
  }

  lemma OrderedCons(m: Match, rest: seq<Match>, from: nat, n: nat)
    requires from <= m.start < m.end <= n && Ordered(rest, m.end, n)
    ensures Ordered([m] + rest, from, n)
  {
    var ms := [m] + rest;
    assert forall k :: 1 <= k < |ms| ==> ms[k] == rest[k - 1];
  }

  lemma {:induction false} FindAllOrdered(p: Pattern, t: string, from: nat)
    requires from <= |t|
    ensures Ordered(FindAll(p, t, from), from, |t|)
    decreases |t| - from
  {
    if Search(p, t, from).Some? {
      var m := Search(p, t, from).value;
      FindAllStep(p, t, from);
      FindAllOrdered(p, t, m.end);
      OrderedCons(m, FindAll(p, t, m.end), from, |t|);
    }
  }

  /** The start of the match after the `k`-th, or `n` if the `k`-th is the last. */
  function NextStart(ms: seq<Match>, k: nat, n: nat): nat
    requires k < |ms|
  {
    if k + 1 < |ms| then ms[k + 1].start else n
  }

  lemma NextStartCons(m: Match, rest: seq<Match>, k: nat, n: nat)
    requires 0 < k <= |rest|
    ensures ([m] + rest)[k] == rest[k - 1]
    ensures NextStart([m] + rest, k, n) == NextStart(rest, k - 1, n)
  {
  }

  /** `FindAll` unfolded once: the first match found, then the search resumed after it. */
  lemma FindAllStep(p: Pattern, t: string, from: nat)
    requires from <= |t| && Search(p, t, from).Some?
    ensures Search(p, t, from).value.end <= |t|
    ensures FindAll(p, t, from)
         == [Search(p, t, from).value] + FindAll(p, t, Search(p, t, from).value.end)
  {
  }

  /** `m` is what the pattern matches at `m`'s start. */
  predicate Found(p: Pattern, t: string, m: Match) {
    m.start <= |t| && MatchAt(p, t, m.start) == Some(m)
  }

  lemma FoundCons(p: Pattern, t: string, m: Match, rest: seq<Match>)
    requires Found(p, t, m) && forall k :: 0 <= k < |rest| ==> Found(p, t, rest[k])
    ensures forall k :: 0 <= k < |rest| + 1 ==> Found(p, t, ([m] + rest)[k])
  {
    AllCons(x => Found(p, t, x), m, rest);
  }

  /** A property of the head and of every element of the rest holds of every element of the cons. */
  lemma AllCons<T>(good: T -> bool, x: T, rest: seq<T>)
    requires good(x) && forall k :: 0 <= k < |rest| ==> good(rest[k])
    ensures forall k :: 0 <= k < |rest| + 1 ==> good(([x] + rest)[k])
  {
    var xs := [x] + rest;
    assert forall k :: 1 <= k < |xs| ==> xs[k] == rest[k - 1];
  }

  /** Every match `FindAll` reports is a match of the pattern at its start. */
  lemma {:induction false} FindAllFound(p: Pattern, t: string, from: nat)
    requires from <= |t|
    ensures forall k :: 0 <= k < |FindAll(p, t, from)| ==> Found(p, t, FindAll(p, t, from)[k])
    decreases |t| - from
  {
    if Search(p, t, from).Some? {
      var m := Search(p, t, from).value;
      SearchFound(p, t, from);
      FindAllStep(p, t, from);
      FindAllFound(p, t, m.end);
      FoundCons(p, t, m, FindAll(p, t, m.end));
    }
  }

  /** Every match `FindAll` reports has the shape of the pattern. */
  lemma FindAllShapes(p: Pattern, t: string, from: nat)
    requires from <= |t|
    ensures forall k :: 0 <= k < |FindAll(p, t, from)| ==>
      Framed(FindAll(p, t, from)[k], t, FindAll(p, t, from)[k].start, GroupCount(p))
      && Shape(p, t, FindAll(p, t, from)[k])
  {
    var ms := FindAll(p, t, from);
    FindAllFound(p, t, from);
    forall k | 0 <= k < |ms|
      ensures Framed(ms[k], t, ms[k].start, GroupCount(p)) && Shape(p, t, ms[k])
    {
      MatchShape(p, t, ms[k].start);
    }
  }

  /** Nothing matches after the end of a match and before the next one found. */
  lemma GapAfter(p: Pattern, t: string, e: nat, i: nat)
    requires e <= i <= |t|
    requires |FindAll(p, t, e)| > 0 ==> i < FindAll(p, t, e)[0].start
    ensures MatchAt(p, t, i).None?
  {
    SearchFound(p, t, e);
    if Search(p, t, e).Some? {
      FindAllStep(p, t, e);
    }
  }

  /**
    `FindAll` misses nothing: after the end of each match it found, the
    pattern matches nowhere before the next match found (or, after the last
    one, nowhere up to and including the end of the text).
   */
  lemma {:induction false} GapHasNoMatch(p: Pattern, t: string, from: nat, k: nat, i: nat)
    requires from <= |t|
    requires k < |FindAll(p, t, from)|
    requires FindAll(p, t, from)[k].end <= i < NextStart(FindAll(p, t, from), k, |t| + 1) && i <= |t|
    ensures MatchAt(p, t, i).None?
    decreases |t| - from
  {
    var ms := FindAll(p, t, from);
    assert Search(p, t, from).Some?;
    var m := Search(p, t, from).value;
    FindAllStep(p, t, from);
    var rest := FindAll(p, t, m.end);
    if k == 0 {
      GapAfter(p, t, m.end, i);
    } else {
      NextStartCons(m, rest, k, |t| + 1);
      GapHasNoMatch(p, t, m.end, k - 1, i);
    }
  }

  /** Positions where the pattern cannot match do not change where a search lands. */
  lemma SearchSkips(p: Pattern, t: string, a: nat, b: nat)
    requires a <= b <= |t| && NoMatchIn(p, t, a, b)
    ensures Search(p, t, a) == Search(p, t, b)
  {
    SearchFound(p, t, a);
    SearchFound(p, t, b);
    var r, r' := Search(p, t, a), Search(p, t, b);
    if r.Some? {
      assert b <= r.value.start;
    }
    if r'.Some? {
      assert r.Some? && r.value.start == r'.value.start;
    }
  }

  lemma FindAllSkips(p: Pattern, t: string, a: nat, b: nat)
    requires a <= b <= |t| && NoMatchIn(p, t, a, b)
    ensures FindAll(p, t, a) == FindAll(p, t, b)
  {
    SearchSkips(p, t, a, b);
  }
}
