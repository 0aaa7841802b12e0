/**
  Quoted string literals in generated source code, and code templates made
  of fixed text and value slots. This is what the batch formatter emits: a
  Python dictionary or a JavaScript object literal per question, each text
  field inside a quoted literal with its quotes escaped
  (archive/batch_formatter.py lines 28-72).

  `ReadLiteral` is the reader side: how a Python or JavaScript parser reads
  the body of a literal delimited by `q`, for the two escapes the templates
  can produce (`\\` and a backslash before the quote). It stands in for the
  language parser and is the reference the escaping is judged against.
 */
module CodeLiteral {
  import opened Text
  import opened Numbers

  /**
    Reads a literal body ending at the first unescaped `q`, and returns the
    text it denotes with the number of characters consumed, the closing
    quote included. A line break before the closing quote ends the literal
    in error, as it does in both languages; an escape other than the two
    above is outside this reader and yields `None` as well.
   */
  function ReadLiteral(t: string, q: char): (r: Option<(string, nat)>)
    ensures r.Some? ==> 1 <= r.value.1 <= |t| && t[r.value.1 - 1] == q
    ensures r.Some? ==> |r.value.0| < r.value.1
    ensures r.Some? && q != '\n' ==> forall i :: 0 <= i < r.value.1 ==> t[i] != '\n'
    decreases |t|
  {
    if |t| == 0 || t[0] == '\n' then None
    else if t[0] == q then Some(([], 1))
    else if t[0] == '\\' then
      if |t| >= 2 && (t[1] == '\\' || t[1] == q) then
        match ReadLiteral(t[2..], q)
        case None => None
        case Some(rest) => Some(([t[1]] + rest.0, rest.1 + 2))
      else None
    else
      match ReadLiteral(t[1..], q)
      case None => None
      case Some(rest) => Some(([t[0]] + rest.0, rest.1 + 1))
  }

  /**
    The escaping the formatter applies (lines 31-36 and 54-59): every `q`
    becomes a backslash followed by `q`; nothing else changes.
   */
  function EscapeQuotes(s: string, q: char): (r: string)
    ensures |r| == |s| + CountChar(s, q)
    ensures q !in s ==> r == s
  {
    if |s| == 0 then []
    else (if s[0] == q then ['\\', q] else [s[0]]) + EscapeQuotes(s[1..], q)
  }

  /** Undoes the formatter's escaping: read left to right, a backslash before `q` is dropped. */
  function UnescapeQuotes(t: string, q: char): string
    decreases |t|
  {
    if |t| == 0 then []
    else if |t| >= 2 && t[0] == '\\' && t[1] == q then [q] + UnescapeQuotes(t[2..], q)
    else [t[0]] + UnescapeQuotes(t[1..], q)
  }

  /**
    The formatter's escaping loses nothing: undoing it gives the text back.
    What goes wrong is not the escaping itself but the reader, which also
    treats a backslash the text already held as an escape.
   */
  lemma {:induction false} UnescapeEscapeQuotes(s: string, q: char)
    requires QuoteChar(q)
    ensures UnescapeQuotes(EscapeQuotes(s, q), q) == s
  {
    if |s| > 0 {
      var e := EscapeQuotes(s[1..], q);
      UnescapeEscapeQuotes(s[1..], q);
      if s[0] == q {
        assert (['\\', q] + e)[2..] == e;
      } else {
        assert ([s[0]] + e)[1..] == e;
        if |e| > 0 {
          assert e[0] != q;
        }
      }
    }
  }

  /** The formatter's escaping of a concatenation escapes each part. */
  lemma {:induction false} EscapeQuotesAppend(u: string, v: string, q: char)
    ensures EscapeQuotes(u + v, q) == EscapeQuotes(u, q) + EscapeQuotes(v, q)
    decreases |u|
  {
    if |u| > 0 {
      assert (u + v)[1..] == u[1..] + v;
      EscapeQuotesAppend(u[1..], v, q);
    } else {
      assert u + v == v;
    }
  }

  /** The escaping a literal needs: backslashes are escaped as well as quotes. */
  function Escape(s: string, q: char): (r: string)
    ensures |r| >= |s|
  {
    if |s| == 0 then [] else EscapeChar(s[0], q) + Escape(s[1..], q)
  }

  /** One character escaped: a backslash or the quote gets a backslash before it. */
  function EscapeChar(c: char, q: char): string {
    if c == '\\' || c == q then ['\\', c] else [c]
  }

  /** A quote character a literal can use. */
  predicate QuoteChar(q: char) {
    q != '\\' && q != '\n'
  }

  /**
    The escaped text followed by the closing quote reads back as the text,
    whatever follows the literal.
   */
  lemma EscapeRoundTrip(s: string, q: char, tail: string)
    requires QuoteChar(q) && '\n' !in s
    ensures ReadLiteral(Escape(s, q) + [q] + tail, q) == Some((s, |Escape(s, q)| + 1))
  {
    ReadEscaped(s, [q] + tail, q);
    assert Escape(s, q) + [q] + tail == Escape(s, q) + ([q] + tail);
    assert s + [] == s;
  }

  /**
    The formatter's escaping agrees with full escaping on every text
    without a backslash.
   */
  lemma {:induction false} EscapeQuotesAgrees(s: string, q: char)
    requires '\\' !in s
    ensures EscapeQuotes(s, q) == Escape(s, q)
  {
    if |s| > 0 {
      EscapeQuotesAgrees(s[1..], q);
    }
  }

  /** A read result with `prefix` put before the text read and `used` characters more consumed. */
  function After(prefix: string, used: nat, r: Option<(string, nat)>): Option<(string, nat)> {
    match r
    case None => None
    case Some(v) => Some((prefix + v.0, used + v.1))
  }

  lemma AfterAfter(a: string, m: nat, b: string, n: nat, r: Option<(string, nat)>)
    ensures After(a, m, After(b, n, r)) == After(a + b, m + n, r)
  {
    if r.Some? {
      assert a + (b + r.value.0) == a + b + r.value.0;
    }
  }

  /** Reading an escaped character, then whatever the rest reads as. */
  lemma ReadCharThen(c: char, t: string, q: char)
    requires QuoteChar(q) && c != '\n'
    ensures ReadLiteral(EscapeChar(c, q) + t, q) == After([c], |EscapeChar(c, q)|, ReadLiteral(t, q))
  {
    var h := EscapeChar(c, q);
    assert (h + t)[|h|..] == t;
  }

  lemma EscapeCons(u: string, t: string, q: char)
    requires |u| > 0
    ensures Escape(u, q) + t == EscapeChar(u[0], q) + (Escape(u[1..], q) + t)
  {
  }

  /**
    A fully escaped single-line text is read as itself, and reading goes on
    with whatever follows it.
   */
  lemma {:induction false} ReadEscaped(u: string, t: string, q: char)
    requires QuoteChar(q) && '\n' !in u
    ensures ReadLiteral(Escape(u, q) + t, q) == After(u, |Escape(u, q)|, ReadLiteral(t, q))
  {
    if |u| > 0 {
      var rest := Escape(u[1..], q) + t;
      EscapeCons(u, t, q);
      ReadEscaped(u[1..], t, q);
      ReadCharThen(u[0], rest, q);
      AfterAfter([u[0]], |EscapeChar(u[0], q)|, u[1..], |Escape(u[1..], q)|, ReadLiteral(t, q));
      assert [u[0]] + u[1..] == u;
    } else {
      assert Escape(u, q) + t == t;
      assert After(u, 0, ReadLiteral(t, q)) == ReadLiteral(t, q) by {
        if ReadLiteral(t, q).Some? {
          assert u + ReadLiteral(t, q).value.0 == ReadLiteral(t, q).value.0;
        }
      }
    }
  }

  /**
    The formatter's escaping does not survive a text that ends in a
    backslash (`u` followed by one backslash): the backslash escapes the
    closing quote, which is read as part of the text, and the literal stays
    open into whatever follows it.
   */
  lemma TrailingBackslash(u: string, q: char, rest: string)
    requires QuoteChar(q) && '\\' !in u && '\n' !in u
    ensures ReadLiteral(EscapeQuotes(u + ['\\'], q) + [q] + rest, q) ==
      After(u + [q], |EscapeQuotes(u, q)| + 2, ReadLiteral(rest, q))
  {
    var tail := ['\\', q] + rest;
    EscapedBackslashQuote(u, q, rest);
    ReadEscaped(u, tail, q);
    ReadQuoteEscape(q, rest);
    AfterAfter(u, |Escape(u, q)|, [q], 2, ReadLiteral(rest, q));
  }

  /** The formatter's literal for `u` and one backslash, then the quote: full escaping of `u`, then `\q`. */
  lemma EscapedBackslashQuote(u: string, q: char, rest: string)
    requires QuoteChar(q) && '\\' !in u
    ensures EscapeQuotes(u + ['\\'], q) + [q] + rest == Escape(u, q) + (['\\', q] + rest)
    ensures |EscapeQuotes(u, q)| == |Escape(u, q)|
  {
    EscapeQuotesAppend(u, ['\\'], q);
    EscapeQuotesAgrees(u, q);
    EscapeQuotesBackslash(q);
    Regroup(Escape(u, q), '\\', q, rest);
  }

  lemma EscapeQuotesBackslash(q: char)
    requires QuoteChar(q)
    ensures EscapeQuotes(['\\'], q) == ['\\']
  {
  }

  lemma Regroup(a: string, c: char, d: char, rest: string)
    ensures a + [c] + [d] + rest == a + ([c, d] + rest)
  {
  }

  /** A backslash before the quote reads as the quote, and reading goes on. */
  lemma ReadQuoteEscape(q: char, rest: string)
    requires QuoteChar(q)
    ensures ReadLiteral(['\\', q] + rest, q) == After([q], 2, ReadLiteral(rest, q))
  {
    assert (['\\', q] + rest)[2..] == rest;
  }

  // --------------------------------------------------------- templates

  /** A piece of generated code: fixed text, or a slot holding a value. */
  datatype Piece =
    | Lit(text: string)
    | Int(value: int)
    | Str(s: string)
    | Chr(c: char)

  /** Whether two pieces are the same kind and, for fixed text, the same text. */
  predicate SameShape(a: Piece, b: Piece) {
    match a
    case Lit(x) => b.Lit? && b.text == x
    case Int(_) => b.Int?
    case Str(_) => b.Str?
    case Chr(_) => b.Chr?
  }

  /** How a template escapes its text slots: the quote only, or backslashes as well. */
  datatype Escaping = QuotesOnly | Full

  function EscapeBy(e: Escaping, s: string, q: char): string {
    match e
    case QuotesOnly => EscapeQuotes(s, q)
    case Full => Escape(s, q)
  }

  /** A text a slot escaped by `e` can carry and still be read back. */
  predicate SafeText(s: string, e: Escaping) {
    '\n' !in s && (e == QuotesOnly ==> '\\' !in s)
  }

  /**
    How one piece appears in the code: `str()` of an integer, an escaped
    text with the quote that closes its literal, a bare character.
   */
  function RenderPiece(p: Piece, q: char, e: Escaping): string {
    match p
    case Lit(x) => x
    case Int(i) => IntToString(i)
    case Str(s) => EscapeBy(e, s, q) + [q]
    case Chr(c) => [c]
  }

  function Render(ps: seq<Piece>, q: char, e: Escaping): string {
    if |ps| == 0 then [] else RenderPiece(ps[0], q, e) + Render(ps[1..], q, e)
  }

  /** Both escapings render a template alike when no text slot holds a backslash. */
  lemma {:induction false} RenderAgrees(ps: seq<Piece>, q: char)
    requires forall k :: 0 <= k < |ps| && ps[k].Str? ==> '\\' !in ps[k].s
    ensures Render(ps, q, QuotesOnly) == Render(ps, q, Full)
  {
    if |ps| > 0 {
      if ps[0].Str? {
        EscapeQuotesAgrees(ps[0].s, q);
      }
      assert forall k :: 0 <= k < |ps[1..]| ==> ps[1..][k] == ps[k + 1];
      RenderAgrees(ps[1..], q);
    }
  }

  /** A character that can belong to `str()` of an integer. */
  predicate NumberChar(c: char) {
    IsDigit(c) || c == '-'
  }

  /** The length of the longest prefix of `t` made of number characters. */
  function NumberRun(t: string): (n: nat)
    ensures n <= |t|
    ensures forall i :: 0 <= i < n ==> NumberChar(t[i])
    ensures n < |t| ==> !NumberChar(t[n])
  {
    if |t| == 0 || !NumberChar(t[0]) then 0 else 1 + NumberRun(t[1..])
  }

  /**
    Reads the piece of shape `shape` at the front of `t`: the fixed text
    itself, a number, a literal body up to its closing quote, or one
    character. Gives the piece read and the characters consumed.
   */
  function ReadPiece(shape: Piece, t: string, q: char): (r: Option<(Piece, nat)>)
    ensures r.Some? ==> r.value.1 <= |t| && SameShape(shape, r.value.0)
  {
    match shape
    case Lit(x) => if LiteralAt(t, 0, x) then Some((Lit(x), |x|)) else None
    case Int(_) =>
      var n := NumberRun(t);
      (match PyInt(t[..n])
       case Some(i) => Some((Int(i), n))
       case None => None)
    case Str(_) =>
      (match ReadLiteral(t, q)
       case Some(body) => Some((Str(body.0), body.1))
       case None => None)
    case Chr(_) => if |t| >= 1 then Some((Chr(t[0]), 1)) else None
  }

  /** Reads the whole of `t` against the template `shapes`, slot by slot. */
  function Parse(shapes: seq<Piece>, t: string, q: char): (r: Option<seq<Piece>>)
    ensures r.Some? ==> |r.value| == |shapes| && forall k :: 0 <= k < |shapes| ==> SameShape(shapes[k], r.value[k])
    decreases |shapes|
  {
    if |shapes| == 0 then
      if |t| == 0 then Some([]) else None
    else
      match ReadPiece(shapes[0], t, q)
      case None => None
      case Some(head) =>
        match Parse(shapes[1..], t[head.1..], q)
        case None => None
        case Some(rest) => Some([head.0] + rest)
  }

  /**
    What makes the first `n` pieces of a template readable: a number is
    followed by fixed text that does not start with a number character, and
    a text slot holds a text its escaping can carry.
   */
  predicate ReadableUpTo(ps: seq<Piece>, q: char, e: Escaping, n: nat)
    requires n <= |ps|
  {
    && QuoteChar(q)
    && (forall k :: 0 <= k < n && ps[k].Int? ==>
          k + 1 < |ps| && ps[k + 1].Lit? && |ps[k + 1].text| > 0 && !NumberChar(ps[k + 1].text[0]))
    && (forall k :: 0 <= k < n && ps[k].Str? ==> SafeText(ps[k].s, e))
  }

  predicate Readable(ps: seq<Piece>, q: char, e: Escaping) {
    ReadableUpTo(ps, q, e, |ps|)
  }

  lemma {:induction false} NumberRunPrefix(s: string, rest: string)
    requires forall i :: 0 <= i < |s| ==> NumberChar(s[i])
    requires |rest| == 0 || !NumberChar(rest[0])
    ensures NumberRun(s + rest) == |s|
  {
    if |s| > 0 {
      assert (s + rest)[1..] == s[1..] + rest;
      NumberRunPrefix(s[1..], rest);
    } else {
      assert s + rest == rest;
    }
  }

  /** A rendered piece reads back as itself when what follows it is right for its kind. */
  lemma ReadRendered(shape: Piece, p: Piece, rest: string, q: char, e: Escaping)
    requires SameShape(shape, p) && QuoteChar(q)
    requires p.Int? ==> |rest| > 0 && !NumberChar(rest[0])
    requires p.Str? ==> SafeText(p.s, e)
    ensures ReadPiece(shape, RenderPiece(p, q, e) + rest, q) == Some((p, |RenderPiece(p, q, e)|))
  {
    match p
    case Lit(x) =>
      assert (x + rest)[..|x|] == x;
    case Int(i) =>
      ReadNumber(i, rest);
    case Str(s) =>
      ReadText(shape, s, rest, q, e);
    case Chr(c) =>
  }

  /** An escaped text slot with its closing quote reads back as the text. */
  lemma ReadText(shape: Piece, s: string, rest: string, q: char, e: Escaping)
    requires shape.Str? && QuoteChar(q) && SafeText(s, e)
    ensures ReadPiece(shape, EscapeBy(e, s, q) + [q] + rest, q) == Some((Str(s), |EscapeBy(e, s, q)| + 1))
  {
    EscapeByFull(e, s, q);
    EscapeRoundTrip(s, q, rest);
    var t := Escape(s, q) + [q] + rest;
    assert ReadLiteral(t, q) == Some((s, |Escape(s, q)| + 1));
  }

  /** A text its escaping can carry is escaped as full escaping would. */
  lemma EscapeByFull(e: Escaping, s: string, q: char)
    requires SafeText(s, e)
    ensures EscapeBy(e, s, q) == Escape(s, q)
  {
    if e == QuotesOnly {
      EscapeQuotesAgrees(s, q);
    }
  }

  /** `str()` of an integer is made of number characters only. */
  lemma NumberChars(i: int)
    ensures forall j :: 0 <= j < |IntToString(i)| ==> NumberChar(IntToString(i)[j])
  {
    if i < 0 {
      var s := IntToString(i);
      assert forall j :: 1 <= j < |s| ==> s[j] == NatToString(-i)[j - 1];
    }
  }

  /** A printed integer followed by a non-number character reads back as the integer. */
  lemma ReadNumber(i: int, rest: string)
    requires |rest| > 0 && !NumberChar(rest[0])
    ensures var t := IntToString(i) + rest;
      NumberRun(t) == |IntToString(i)| && PyInt(t[..NumberRun(t)]) == Some(i)
  {
    var s := IntToString(i);
    NumberChars(i);
    NumberRunPrefix(s, rest);
    assert (s + rest)[..|s|] == s;
    PyIntRoundTrip(i);
  }

  /** A parse result with the pieces `ps` put before the pieces read. */
  function Prefixed(ps: seq<Piece>, r: Option<seq<Piece>>): Option<seq<Piece>> {
    match r
    case None => None
    case Some(x) => Some(ps + x)
  }

  lemma PrefixedPrefixed(a: seq<Piece>, b: seq<Piece>, r: Option<seq<Piece>>)
    ensures Prefixed(a, Prefixed(b, r)) == Prefixed(a + b, r)
  {
    if r.Some? {
      assert a + (b + r.value) == a + b + r.value;
    }
  }

  /** A template whose first piece reads is read on from where that piece ends. */
  lemma ParseStep(shapes: seq<Piece>, t: string, q: char, p: Piece, n: nat)
    requires |shapes| > 0 && ReadPiece(shapes[0], t, q) == Some((p, n))
    ensures Parse(shapes, t, q) == Prefixed([p], Parse(shapes[1..], t[n..], q))
  {
  }

  /** A readable template's first piece is read back, and reading goes on with the rest. */
  lemma ReadHead(shapes: seq<Piece>, ps: seq<Piece>, q: char, e: Escaping)
    requires 0 < |ps| == |shapes|
    requires SameShape(shapes[0], ps[0])
    requires ReadableUpTo(ps, q, e, 1)
    ensures Parse(shapes, Render(ps, q, e), q) == Prefixed([ps[0]], Parse(shapes[1..], Render(ps[1..], q, e), q))
  {
    var head := RenderPiece(ps[0], q, e);
    var rest := Render(ps[1..], q, e);
    if ps[0].Int? {
      var x := ps[1].text;
      assert rest == x + Render(ps[2..], q, e) by {
        assert ps[1..][1..] == ps[2..];
      }
      assert rest[0] == x[0];
    }
    ReadRendered(shapes[0], ps[0], rest, q, e);
    assert (head + rest)[|head|..] == rest;
    ParseStep(shapes, head + rest, q, ps[0], |head|);
  }

  /**
    Reading a rendered template: its first `n` pieces, when readable, are
    read back as themselves, and the rest is read on from where they end.
   */
  lemma {:induction false} ParsePrefix(shapes: seq<Piece>, ps: seq<Piece>, q: char, e: Escaping, n: nat)
    requires n <= |ps| == |shapes|
    requires forall k :: 0 <= k < |ps| ==> SameShape(shapes[k], ps[k])
    requires ReadableUpTo(ps, q, e, n)
    ensures Parse(shapes, Render(ps, q, e), q) == Prefixed(ps[..n], Parse(shapes[n..], Render(ps[n..], q, e), q))
  {
    if n > 0 {
      ReadHead(shapes, ps, q, e);
      ReadableTail(shapes, ps, q, e, n);
      ParsePrefix(shapes[1..], ps[1..], q, e, n - 1);
      TailSlices(shapes, ps, n);
      PrefixedPrefixed([ps[0]], ps[1..][..n - 1], Parse(shapes[n..], Render(ps[n..], q, e), q));
    } else {
      PrefixedNothing(Parse(shapes, Render(ps, q, e), q));
      assert ps[..0] == [] && shapes[0..] == shapes && ps[0..] == ps;
    }
  }

  lemma TailSlices(shapes: seq<Piece>, ps: seq<Piece>, n: nat)
    requires 0 < n <= |ps| == |shapes|
    ensures shapes[1..][n - 1..] == shapes[n..] && ps[1..][n - 1..] == ps[n..]
    ensures [ps[0]] + ps[1..][..n - 1] == ps[..n]
  {
  }

  lemma PrefixedNothing(r: Option<seq<Piece>>)
    ensures Prefixed([], r) == r
  {
    if r.Some? {
      assert [] + r.value == r.value;
    }
  }

  /** Dropping the first piece keeps a template readable and shaped like its shapes. */
  lemma ReadableTail(shapes: seq<Piece>, ps: seq<Piece>, q: char, e: Escaping, n: nat)
    requires 0 < n <= |ps| == |shapes|
    requires forall k :: 0 <= k < |ps| ==> SameShape(shapes[k], ps[k])
    requires ReadableUpTo(ps, q, e, n)
    ensures forall k :: 0 <= k < |ps[1..]| ==> SameShape(shapes[1..][k], ps[1..][k])
    ensures ReadableUpTo(ps[1..], q, e, n - 1)
  {
    assert forall k :: 0 <= k < |ps[1..]| ==> ps[1..][k] == ps[k + 1] && shapes[1..][k] == shapes[k + 1];
  }

  /** A rendered template is its first piece followed by the rest. */
  lemma RenderFrom(ps: seq<Piece>, q: char, e: Escaping, n: nat)
    requires n < |ps|
    ensures Render(ps[n..], q, e) == RenderPiece(ps[n], q, e) + Render(ps[n + 1..], q, e)
  {
    assert ps[n..][0] == ps[n] && ps[n..][1..] == ps[n + 1..];
  }

  /** A text slot whose literal cannot be read makes the whole template unreadable. */
  lemma UnreadSlot(shapes: seq<Piece>, ps: seq<Piece>, q: char, e: Escaping, n: nat)
    requires n < |ps| == |shapes|
    requires forall k :: 0 <= k < |ps| ==> SameShape(shapes[k], ps[k])
    requires ReadableUpTo(ps, q, e, n) && ps[n].Str?
    requires ReadLiteral(Render(ps[n..], q, e), q) == None
    ensures Parse(shapes, Render(ps, q, e), q) == None
  {
    ParsePrefix(shapes, ps, q, e, n);
    assert shapes[n..][0] == shapes[n];
  }

  /** A literal meets a line break right after one plain character: it is never closed. */
  lemma OpenAtLineBreak(t: string, q: char)
    requires |t| >= 2 && t[0] != q && t[0] != '\\' && t[0] != '\n' && t[1] == '\n'
    ensures ReadLiteral(t, q) == None
  {
    assert t[1..][0] == '\n';
  }

  /** Rendering a template and reading it back against its shapes gives the values back. */
  lemma RoundTrip(shapes: seq<Piece>, ps: seq<Piece>, q: char, e: Escaping)
    requires |shapes| == |ps|
    requires forall k :: 0 <= k < |ps| ==> SameShape(shapes[k], ps[k])
    requires Readable(ps, q, e)
    ensures Parse(shapes, Render(ps, q, e), q) == Some(ps)
  {
    ParsePrefix(shapes, ps, q, e, |ps|);
    assert shapes[|ps|..] == [] && ps[|ps|..] == [];
    assert ps[..|ps|] + [] == ps;
  }
}
