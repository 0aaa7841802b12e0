/**
  The source-mapping parser (`parse_source_mapping`,
  entrepreneurship_quiz_v2.py lines 191-248). The normalised mapping text is
  cut into chapter sections at each header `## QUESTIONS N-M: Chapter ...`;
  inside each section every table row `| N | topic | reference` that is not
  a header row gives a source record for question `N`. A later row for the
  same id replaces an earlier one, across sections too. The `N-M` range of a
  header is read but never used to filter the rows of its section.
 */
module SourceParser {
  import opened Text
  import opened Normalise
  import opened Scan
  import opened Keyed

  /** One value of the source map (lines 239-245). */
  datatype SourceRecord = SourceRecord(
    source: string,     // the stripped reference column
    chapter: string,    // the title of the section the row sits in
    document: string,   // the `ENT 101 ... .pdf` name in the reference, or `<chapter>.pdf`
    reference: string,  // the first `[[N]]` token of the reference, or ""
    topic: string)      // the stripped topic column

  /**
    A chapter section found by the first pass: the question range and title
    of its header, and the half-open span `[lo, hi)` of text it owns.
   */
  datatype Chapter = Chapter(first: nat, last: nat, title: string, lo: nat, hi: nat)

  // ---------------------------------------------------------- pass 1

  /** An ASCII letter matched while ignoring case is never whitespace. */
  lemma CiLetterNotSpace(p: char, c: char)
    requires IsAsciiLetter(p) && CiMatches(p, c)
    ensures !IsSpace(c)
  {
  }

  /** `s` starts with the word `Chapter`, letters compared ignoring case. */
  predicate StartsChapter(s: string) {
    CiLiteralAt(s, 0, "Chapter")
  }

  /** The third group of a header, `Chapter\s+\d+[^|#]+`, stripped, still starts with `Chapter`. */
  lemma TitleStartsChapter(t: string, lo: nat, hi: nat)
    requires lo + 7 < hi <= |t| && CiLiteralAt(t, lo, "Chapter")
    ensures StartsChapter(Strip(t[lo..hi]))
  {
    var s := t[lo..hi];
    var word := "Chapter";
    assert forall k :: 0 <= k < 7 ==> s[k] == t[lo + k];
    assert CiMatches(word[0], t[lo]) && CiMatches(word[6], t[lo + 6]);
    CiLetterNotSpace(word[0], s[0]);
    CiLetterNotSpace(word[6], s[6]);
    assert StripStart(s) == 0;
    assert StripEnd(s) >= 7;
    assert Strip(s) == s[..StripEnd(s)];
  }

  /** The chapter a header match opens, owning the text up to `hi`. */
  function ChapterAtMatch(t: string, m: Match, hi: nat): (c: Chapter)
    requires Framed(m, t, m.start, 3) && ChapterShape(t, m) && m.end <= hi <= |t|
    ensures StartsChapter(c.title) && c.lo == m.end && c.hi == hi
  {
    TitleStartsChapter(t, m.groups[2].lo, m.groups[2].hi);
    Chapter(GroupValue(t, m.groups[0]), GroupValue(t, m.groups[1]),
            Strip(Slice(t, m.groups[2])), m.end, hi)
  }

  /** Matches in text order, each with the shape of a chapter header. */
  predicate HeadersShaped(t: string, ms: seq<Match>) {
    && Ordered(ms, 0, |t|)
    && forall k :: 0 <= k < |ms| ==> Framed(ms[k], t, ms[k].start, 3) && ChapterShape(t, ms[k])
  }

  /** The sections the header matches `ms` open, each owning the text up to the next header. */
  function Sections(t: string, ms: seq<Match>): (cs: seq<Chapter>)
    requires HeadersShaped(t, ms)
    ensures |cs| == |ms|
    ensures forall k :: 0 <= k < |cs| ==> cs[k] == SectionAt(t, ms, k)
  {
    seq(|ms|, k requires 0 <= k < |ms| => SectionAt(t, ms, k))
  }

  /**
    The section the `k`-th header opens: it starts where its header ends
    and stops where the next header starts, the last one at the end of the
    text.
   */
  function SectionAt(t: string, ms: seq<Match>, k: nat): (c: Chapter)
    requires HeadersShaped(t, ms) && k < |ms|
    ensures c.lo == ms[k].end && c.hi == NextStart(ms, k, |t|)
    ensures c.lo <= c.hi <= |t| && StartsChapter(c.title)
    ensures k + 1 < |ms| ==> c.hi < ms[k + 1].end
    ensures k + 1 == |ms| ==> c.hi == |t|
  {
    assert k + 1 < |ms| ==> ms[k].end <= ms[k + 1].start < ms[k + 1].end;
    ChapterAtMatch(t, ms[k], NextStart(ms, k, |t|))
  }

  /** No header starts inside a section. */
  lemma SectionsHeaderFree(t: string, cs: seq<Chapter>)
    requires |cs| == |FindAll(ChapterHeader, t, 0)|
    requires forall k :: 0 <= k < |cs| ==> cs[k].lo == FindAll(ChapterHeader, t, 0)[k].end
    requires forall k :: 0 <= k < |cs| ==>
      cs[k].hi == NextStart(FindAll(ChapterHeader, t, 0), k, |t|) && cs[k].hi <= |t|
    ensures forall k :: 0 <= k < |cs| ==> NoMatchIn(ChapterHeader, t, cs[k].lo, cs[k].hi)
  {
    var ms := FindAll(ChapterHeader, t, 0);
    forall k, i | 0 <= k < |cs| && cs[k].lo <= i < cs[k].hi
      ensures MatchAt(ChapterHeader, t, i).None?
    {
      GapHasNoMatch(ChapterHeader, t, 0, k, i);
    }
  }

  /** There are no sections exactly when no header matches anywhere. */
  lemma SectionsNone(t: string)
    ensures |FindAll(ChapterHeader, t, 0)| == 0 <==> NoMatchIn(ChapterHeader, t, 0, |t| + 1)
  {
    SearchFound(ChapterHeader, t, 0);
  }

  /** Each section but the last ends where a header matches. */
  lemma SectionsEndAtHeader(t: string, cs: seq<Chapter>)
    requires |cs| == |FindAll(ChapterHeader, t, 0)|
    requires forall k :: 0 <= k < |cs| ==> cs[k].hi == NextStart(FindAll(ChapterHeader, t, 0), k, |t|)
    ensures forall k :: 0 <= k < |cs| - 1 ==> cs[k].hi <= |t| && MatchAt(ChapterHeader, t, cs[k].hi).Some?
  {
    var ms := FindAll(ChapterHeader, t, 0);
    FindAllFound(ChapterHeader, t, 0);
    forall k | 0 <= k < |cs| - 1
      ensures cs[k].hi <= |t| && MatchAt(ChapterHeader, t, cs[k].hi).Some?
    {
      assert cs[k].hi == ms[k + 1].start;
      assert Found(ChapterHeader, t, ms[k + 1]);
    }
  }

  /**
    Pass 1 (lines 200-219): one section per header, in text order, each
    running from the end of its header to the start of the next header, the
    last one to the end of the text.
   */
  function Chapters(t: string): (cs: seq<Chapter>)
    ensures |cs| == |FindAll(ChapterHeader, t, 0)|
    ensures forall k :: 0 <= k < |cs| ==> cs[k].lo <= cs[k].hi <= |t| && StartsChapter(cs[k].title)
    ensures |cs| > 0 ==> cs[|cs| - 1].hi == |t|
    ensures forall k :: 0 <= k < |cs| - 1 ==> cs[k].hi < cs[k + 1].lo
  {
    var ms := FindAll(ChapterHeader, t, 0);
    HeaderMatches(t);
    SectionsLink(t, ms);
    ChainBounds(Sections(t, ms), ms, |t|);
    Sections(t, ms)
  }

  /** Each section runs from the end of its header to the start of the next one, and is titled `Chapter ...`. */
  lemma SectionsLink(t: string, ms: seq<Match>)
    requires HeadersShaped(t, ms)
    ensures var cs := Sections(t, ms);
      forall k :: 0 <= k < |cs| ==>
        cs[k].lo == ms[k].end && cs[k].hi == NextStart(ms, k, |t|) && cs[k].lo <= cs[k].hi <= |t|
        && StartsChapter(cs[k].title)
  {
    var cs := Sections(t, ms);
    forall k | 0 <= k < |cs|
      ensures cs[k].lo == ms[k].end && cs[k].hi == NextStart(ms, k, |t|) && cs[k].lo <= cs[k].hi <= |t|
      ensures StartsChapter(cs[k].title)
    {
      assert cs[k] == SectionAt(t, ms, k);
    }
  }

  /**
    Spans that run from the end of one match to the start of the next lie
    one before the other, the last one reaching `n`.
   */
  lemma ChainBounds(cs: seq<Chapter>, ms: seq<Match>, n: nat)
    requires |cs| == |ms|
    requires forall k :: 0 <= k < |ms| ==> ms[k].start < ms[k].end
    requires forall k :: 0 <= k < |cs| ==> cs[k].lo == ms[k].end && cs[k].hi == NextStart(ms, k, n)
    ensures |cs| > 0 ==> cs[|cs| - 1].hi == n
    ensures forall k :: 0 <= k < |cs| - 1 ==> cs[k].hi < cs[k + 1].lo
  {
  }

  /** The header matches are in text order, each with the shape of a header. */
  lemma HeaderMatches(t: string)
    ensures HeadersShaped(t, FindAll(ChapterHeader, t, 0))
  {
    FindAllShapes(ChapterHeader, t, 0);
    FindAllOrdered(ChapterHeader, t, 0);
  }

  /**
    The sections cover exactly the stretches between headers: no header
    matches inside a section, each section but the last stops where a header
    matches, and there are none exactly when no header matches anywhere.
   */
  lemma ChapterBounds(t: string)
    ensures |Chapters(t)| == 0 <==> NoMatchIn(ChapterHeader, t, 0, |t| + 1)
    ensures forall k :: 0 <= k < |Chapters(t)| ==>
      NoMatchIn(ChapterHeader, t, Chapters(t)[k].lo, Chapters(t)[k].hi)
    ensures forall k :: 0 <= k < |Chapters(t)| - 1 ==>
      MatchAt(ChapterHeader, t, Chapters(t)[k].hi).Some?
  {
    var ms := FindAll(ChapterHeader, t, 0);
    HeaderMatches(t);
    var cs := Sections(t, ms);
    SectionsLink(t, ms);
    assert Chapters(t) == cs;
    SectionsNone(t);
    SectionsHeaderFree(t, cs);
    SectionsEndAtHeader(t, cs);
  }

  // ---------------------------------------------------------- pass 2

  /** The header-row test of line 232. */
  predicate IsHeaderLabel(topic: string) {
    Contains(topic, "Question") || Contains(topic, "Topic")
  }

  /** `s` ends in `.pdf`, letters compared ignoring case. */
  predicate EndsPdf(s: string) {
    |s| >= 4 && CiLiteralAt(s, |s| - 4, ".pdf")
  }

  /** A `[[N]]` citation token. */
  predicate IsCitation(s: string) {
    |s| >= 5 && s[..2] == "[[" && s[|s| - 2..] == "]]" && AllDigits(s[2..|s| - 2])
  }

  /** A document-name match has no whitespace at its ends, so stripping it changes nothing. */
  lemma DocumentStripped(r: string, m: Match)
    requires Framed(m, r, m.start, 1) && DocumentShape(r, m)
    ensures Strip(r[m.start..m.end]) == r[m.start..m.end]
    ensures EndsPdf(r[m.start..m.end]) && CiLiteralAt(r[m.start..m.end], 0, "ENT")
  {
    var s := r[m.start..m.end];
    assert s[0] == r[m.start];
    assert s[|s| - 1] == r[m.end - 1];
    assert CiMatches("ENT"[0], r[m.start]);
    assert CiMatches(".pdf"[3], r[m.end - 4 + 3]);
    CiLetterNotSpace('E', s[0]);
    CiLetterNotSpace('f', s[|s| - 1]);
    StripFixedIff(s);
  }

  /**
    The document of a row (lines 236 and 242): the first `ENT 101 ... .pdf`
    name in its reference column, or the chapter title with `.pdf` added
    when there is none.
   */
  function DocumentOf(reference: string, title: string): (d: string)
    ensures EndsPdf(d)
    ensures Search(DocumentName, reference, 0).None? ==> d == title + ".pdf"
    ensures Search(DocumentName, reference, 0).Some? ==>
      CiLiteralAt(d, 0, "ENT") && LiteralAt(reference, Search(DocumentName, reference, 0).value.start, d)
  {
    match Search(DocumentName, reference, 0)
    case None =>
      var d := title + ".pdf";
      assert d[|d| - 4..] == ".pdf";
      d
    case Some(m) =>
      DocumentFound(reference, m);
      Strip(Slice(reference, m.groups[0]))
  }

  /** The first document-name match is its own stripped text, ENT... at its head and .pdf at its end. */
  lemma DocumentFound(reference: string, m: Match)
    requires Search(DocumentName, reference, 0) == Some(m)
    ensures Framed(m, reference, m.start, 1) && m.groups[0] == Span(m.start, m.end)
    ensures Strip(reference[m.start..m.end]) == reference[m.start..m.end]
    ensures EndsPdf(reference[m.start..m.end]) && CiLiteralAt(reference[m.start..m.end], 0, "ENT")
  {
    SearchFound(DocumentName, reference, 0);
    MatchShape(DocumentName, reference, m.start);
    DocumentStripped(reference, m);
  }

  /**
    The citation of a row (lines 237 and 243): the whole first `[[N]]`
    token of its reference column, or "" when there is none.
   */
  function CitationOf(reference: string): (c: string)
    ensures c == "" <==> Search(Citation, reference, 0).None?
    ensures c != "" ==> IsCitation(c) && LiteralAt(reference, Search(Citation, reference, 0).value.start, c)
  {
    match Search(Citation, reference, 0)
    case None => ""
    case Some(m) =>
      SearchFound(Citation, reference, 0);
      MatchShape(Citation, reference, m.start);
      CitationToken(reference, m);
      reference[m.start..m.end]
  }

  /** The text of a citation match is a `[[N]]` token. */
  lemma CitationToken(r: string, m: Match)
    requires Framed(m, r, m.start, 1) && CitationShape(r, m)
    ensures IsCitation(r[m.start..m.end])
  {
    var c := r[m.start..m.end];
    assert r[m.start..m.start + 2] == "[[";
    assert c[..2] == r[m.start..m.start + 2];
    assert r[m.end - 2..m.end] == "]]";
    assert c[|c| - 2..] == r[m.end - 2..m.end];
    assert AllDigits(r[m.start + 2..m.end - 2]);
    assert c[2..|c| - 2] == r[m.start + 2..m.end - 2];
  }

  /** Text cut from a run without `|` keeps none after stripping. */
  lemma StripNoPipe(s: string)
    requires '|' !in s
    ensures '|' !in Strip(s)
  {
    if Strip(s) != "" {
      assert forall x :: x in Strip(s) ==> x in s;
    }
  }

  lemma GroupNoPipe(t: string, sp: Span)
    requires sp.lo <= sp.hi <= |t| && AllIn(NotPipe, t[sp.lo..sp.hi])
    ensures '|' !in Strip(Slice(t, sp))
  {
    var s := Slice(t, sp);
    assert forall k :: 0 <= k < |s| ==> InClass(NotPipe, s[k]);
    StripNoPipe(s);
  }

  /** What every record of the source map satisfies, `title` being its section's title. */
  predicate GoodSource(r: SourceRecord, title: string) {
    && r.chapter == title
    && !IsHeaderLabel(r.topic) && '|' !in r.topic && '|' !in r.source
    && r.document == DocumentOf(r.source, r.chapter) && EndsPdf(r.document)
    && r.reference == CitationOf(r.source) && (r.reference == "" || IsCitation(r.reference))
  }

  /**
    The entry one row of a section gives (lines 227-245), or `None` for a
    header row, whose topic mentions `Question` or `Topic`.
   */
  function RowEntry(ct: string, m: Match, title: string): (e: Option<(nat, SourceRecord)>)
    requires Framed(m, ct, m.start, 3) && SourceRowShape(ct, m)
    ensures e.None? <==> IsHeaderLabel(Strip(Slice(ct, m.groups[1])))
    ensures e.Some? ==> e.value.0 == GroupValue(ct, m.groups[0]) && GoodSource(e.value.1, title)
    ensures e.Some? ==>
      e.value.1.topic == Strip(Slice(ct, m.groups[1])) && e.value.1.source == Strip(Slice(ct, m.groups[2]))
  {
    var topic := Strip(Slice(ct, m.groups[1]));
    var reference := Strip(Slice(ct, m.groups[2]));
    if IsHeaderLabel(topic) then None
    else
      GroupNoPipe(ct, m.groups[1]);
      GroupNoPipe(ct, m.groups[2]);
      Some((GroupValue(ct, m.groups[0]),
            SourceRecord(reference, title, DocumentOf(reference, title), CitationOf(reference), topic)))
  }

  /** The entries of the non-header rows of a section's text `ct`, in text order. */
  function SectionEntries(ct: string, title: string): (es: seq<(nat, SourceRecord)>)
    ensures |es| <= |FindAll(SourceRow, ct, 0)|
    ensures forall k :: 0 <= k < |es| ==> GoodSource(es[k].1, title)
  {
    var ms := FindAll(SourceRow, ct, 0);
    FindAllShapes(SourceRow, ct, 0);
    var found := seq(|ms|, k requires 0 <= k < |ms| => RowEntry(ct, ms[k], title));
    SomesGood(found, title);
    Somes(found)
  }

  /** Keeping the found rows keeps their well-formedness. */
  lemma SomesGood(found: seq<Option<(nat, SourceRecord)>>, title: string)
    requires forall j :: 0 <= j < |found| && found[j].Some? ==> GoodSource(found[j].value.1, title)
    ensures forall k :: 0 <= k < |Somes(found)| ==> GoodSource(Somes(found)[k].1, title)
  {
    var es := Somes(found);
    forall k | 0 <= k < |es| ensures GoodSource(es[k].1, title) {
      var j :| 0 <= j < |found| && found[j] == Some(es[k]);
    }
  }

  /** The text a section owns. */
  function SectionText(t: string, c: Chapter): string
    requires c.lo <= c.hi <= |t|
  {
    t[c.lo..c.hi]
  }

  /** The titles of the sections `cs`. */
  function Titles(cs: seq<Chapter>): set<string> {
    set k | 0 <= k < |cs| :: cs[k].title
  }

  /** Pass 2 over the sections `cs`, their entries one after the other (lines 205-245). */
  function Entries(t: string, cs: seq<Chapter>): (es: seq<(nat, SourceRecord)>)
    requires forall k :: 0 <= k < |cs| ==> cs[k].lo <= cs[k].hi <= |t|
    ensures forall j :: 0 <= j < |es| ==>
      es[j].1.chapter in Titles(cs) && GoodSource(es[j].1, es[j].1.chapter)
    decreases |cs|
  {
    if |cs| == 0 then []
    else
      var head := SectionEntries(SectionText(t, cs[0]), cs[0].title);
      var rest := Entries(t, cs[1..]);
      EntriesCons(cs, head, rest);
      head + rest
  }

  /** The entries of one section followed by those of the sections after it. */
  lemma EntriesCons(cs: seq<Chapter>, head: seq<(nat, SourceRecord)>, rest: seq<(nat, SourceRecord)>)
    requires |cs| > 0
    requires forall j :: 0 <= j < |head| ==>
      head[j].1.chapter == cs[0].title && GoodSource(head[j].1, head[j].1.chapter)
    requires forall j :: 0 <= j < |rest| ==>
      rest[j].1.chapter in Titles(cs[1..]) && GoodSource(rest[j].1, rest[j].1.chapter)
    ensures var es := head + rest;
      forall j :: 0 <= j < |es| ==> es[j].1.chapter in Titles(cs) && GoodSource(es[j].1, es[j].1.chapter)
  {
    assert cs[0].title in Titles(cs);
    assert Titles(cs[1..]) <= Titles(cs) by {
      forall x | x in Titles(cs[1..]) ensures x in Titles(cs) {
        var k :| 0 <= k < |cs[1..]| && cs[1..][k].title == x;
        assert cs[k + 1].title == x;
      }
    }
    var es := head + rest;
    forall j | 0 <= j < |es|
      ensures es[j].1.chapter in Titles(cs) && GoodSource(es[j].1, es[j].1.chapter)
    {
      if j < |head| {
        assert es[j] == head[j];
      } else {
        assert es[j] == rest[j - |head|];
      }
    }
  }

  /** Every record of `m` carries one of `titles` and is well formed. */
  predicate AllGood(m: map<nat, SourceRecord>, titles: set<string>) {
    forall id :: id in m ==> m[id].chapter in titles && GoodSource(m[id], m[id].chapter)
  }

  /** The map the rows of sections `cs` build: a later row replaces an earlier one. */
  function SourcesIn(t: string, cs: seq<Chapter>): (r: map<nat, SourceRecord>)
    requires forall k :: 0 <= k < |cs| ==> cs[k].lo <= cs[k].hi <= |t|
    ensures r.Keys == Keys(Entries(t, cs))
    ensures AllGood(r, Titles(cs))
  {
    var es := Entries(t, cs);
    var r := Assign(map[], es);
    assert AllGood(r, Titles(cs)) by {
      forall id | id in r ensures r[id].chapter in Titles(cs) && GoodSource(r[id], r[id].chapter) {
        AssignFrom(map[], es, id);
      }
    }
    r
  }

  /**
    The source map built from normalised text `t`. Every record belongs to
    a section found by the first pass: it carries that section's title, a
    topic that is not a header label, a document ending in `.pdf`, and an
    empty or `[[N]]` reference.
   */
  function SourcesOf(t: string): (r: map<nat, SourceRecord>)
    ensures AllGood(r, Titles(Chapters(t)))
  {
    SourcesIn(t, Chapters(t))
  }

  /** `parse_source_mapping`: the whitespace of the text is collapsed first (line 196). */
  function ParseSources(text: string): (r: map<nat, SourceRecord>)
    ensures AllGood(r, Titles(Chapters(Collapse(text))))
  {
    SourcesOf(Collapse(text))
  }

  /** Without a chapter header there are no sections and so no records. */
  lemma NoHeaderNoSources(t: string)
    requires NoMatchIn(ChapterHeader, t, 0, |t| + 1)
    ensures SourcesOf(t) == map[]
  {
    ChapterBounds(t);
  }

  /** A row decides its id's record unless a later row, in the same or a later section, has the same id. */
  lemma LaterRowWins(t: string, cs: seq<Chapter>, j: nat)
    requires forall k :: 0 <= k < |cs| ==> cs[k].lo <= cs[k].hi <= |t|
    requires j < |Entries(t, cs)|
    requires forall i :: j < i < |Entries(t, cs)| ==> Entries(t, cs)[i].0 != Entries(t, cs)[j].0
    ensures SourcesIn(t, cs)[Entries(t, cs)[j].0] == Entries(t, cs)[j].1
  {
    AssignLast(map[], Entries(t, cs), j);
  }
}
