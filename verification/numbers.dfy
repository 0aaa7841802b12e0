/**
  Decimal numbers as the extractor and the archive scripts read and print
  them: `int()` of a `\d+` group, `int()` of a free-form field, and `str()`
  of an integer.
 */
module Numbers {
  import opened Text

  function DigitVal(c: char): nat
    requires IsDigit(c)
  {
    c as int - '0' as int
  }

  function DigitChar(d: nat): (c: char)
    requires d < 10
    ensures IsDigit(c) && DigitVal(c) == d
  {
    ('0' as int + d) as char
  }

  /** The value of a string of decimal digits (leading zeros allowed). */
  function DigitsValue(s: string): nat
    requires AllDigits(s)
  {
    if |s| == 0 then 0 else 10 * DigitsValue(s[..|s| - 1]) + DigitVal(s[|s| - 1])
  }

  /** Python's `str(n)` for a non-negative integer: digits without leading zeros. */
  function NatToString(n: nat): (r: string)
    ensures |r| >= 1 && AllDigits(r)
    ensures |r| > 1 ==> r[0] != '0'
  {
    if n < 10 then [DigitChar(n)] else NatToString(n / 10) + [DigitChar(n % 10)]
  }

  /** Printing then reading a number gives the number back. */
  lemma {:induction false} ValueOfString(n: nat)
    ensures DigitsValue(NatToString(n)) == n
  {
    if n >= 10 {
      var s := NatToString(n);
      assert s[..|s| - 1] == NatToString(n / 10);
      ValueOfString(n / 10);
    }
  }

  /** Reading then printing a canonical digit string gives the string back. */
  lemma {:induction false} StringOfValue(s: string)
    requires |s| >= 1 && AllDigits(s)
    requires |s| > 1 ==> s[0] != '0'
    ensures NatToString(DigitsValue(s)) == s
    decreases |s|
  {
    var init := s[..|s| - 1];
    if |s| > 1 {
      StringOfValue(init);
      LeadingDigitPositive(init);
      assert s == init + [s[|s| - 1]];
    }
  }

  lemma {:induction false} LeadingDigitPositive(s: string)
    requires |s| >= 1 && AllDigits(s) && s[0] != '0'
    ensures DigitsValue(s) >= 1
    decreases |s|
  {
    if |s| > 1 {
      LeadingDigitPositive(s[..|s| - 1]);
    }
  }

  /** Python's `str(i)` for any integer. */
  function IntToString(i: int): (r: string)
    ensures |r| >= 1 && (r[0] == '-' || IsDigit(r[0]))
  {
    if i < 0 then "-" + NatToString(-i) else NatToString(i)
  }

  /** Decimal digits with single underscores between them, as `int()` allows. */
  predicate IsIntBody(s: string) {
    && |s| >= 1 && IsDigit(s[0]) && IsDigit(s[|s| - 1])
    && (forall i :: 0 <= i < |s| ==> IsDigit(s[i]) || s[i] == '_')
    && (forall i :: 0 <= i < |s| - 1 && s[i] == '_' ==> s[i + 1] != '_')
  }

  lemma {:induction false} BodyDigits(s: string)
    requires forall i :: 0 <= i < |s| ==> IsDigit(s[i]) || s[i] == '_'
    ensures AllDigits(RemoveAll(s, '_'))
    decreases |s|
  {
    if |s| > 0 {
      BodyDigits(s[1..]);
    }
  }

  /** Only digits and underscores, with an optional sign in front. */
  predicate IntCharsOnly(t: string) {
    forall i :: 0 <= i < |t| ==> IsDigit(t[i]) || t[i] == '_' || (i == 0 && (t[i] == '+' || t[i] == '-'))
  }

  /** The text `int()` accepts once stripped: an optional sign, then a digit body. */
  predicate IntLiteral(t: string) {
    IsIntBody(t) || (|t| > 0 && (t[0] == '+' || t[0] == '-') && IsIntBody(t[1..]))
  }

  /** `int()` on text that has already been stripped. */
  function ParseIntLiteral(t: string): (r: Option<int>)
    ensures r.Some? <==> IntLiteral(t)
    ensures r.Some? ==> t != "" && IntCharsOnly(t)
    ensures r.Some? && t[0] == '-' ==> r.value <= 0
    ensures r.Some? && t[0] != '-' ==> r.value >= 0
  {
    var signed := |t| > 0 && (t[0] == '+' || t[0] == '-');
    var body := if signed then t[1..] else t;
    if IsIntBody(body) then
      BodyDigits(body);
      var v := DigitsValue(RemoveAll(body, '_'));
      assert signed ==> forall i: int :: 1 <= i < |t| ==> t[i] == body[i - 1];
      Some(if signed && t[0] == '-' then -(v as int) else v)
    else
      None
  }

  /**
    The whitespace `int()` skips around its text: `str.isspace()` without the
    four information separators U+001C..U+001F. Those are ASCII, so `int()`
    leaves them in place and its C parser, whose whitespace is
    ` \t\n\v\f\r`, then rejects them.
   */
  predicate IntSpace(c: char) {
    IsSpace(c) && !('\U{1C}' <= c <= '\U{1F}')
  }

  /** Index of the first character that is not `int()` whitespace. */
  function IntLead(s: string): (n: nat)
    ensures n <= |s|
    ensures forall i :: 0 <= i < n ==> IntSpace(s[i])
    ensures n == |s| || !IntSpace(s[n])
  {
    if |s| == 0 || !IntSpace(s[0]) then 0
    else 1 + IntLead(s[1..])
  }

  /** Index just past the last character that is not `int()` whitespace. */
  function IntTrail(s: string): (n: nat)
    ensures n <= |s|
    ensures forall i :: n <= i < |s| ==> IntSpace(s[i])
    ensures n == 0 || !IntSpace(s[n - 1])
  {
    if |s| == 0 || !IntSpace(s[|s| - 1]) then |s|
    else IntTrail(s[..|s| - 1])
  }

  /** The text `int()` parses: `s` without its leading and trailing `int()` whitespace. */
  function IntStrip(s: string): (r: string)
    ensures |r| <= |s|
    ensures r == "" || (!IntSpace(r[0]) && !IntSpace(r[|r| - 1]))
    ensures r == "" <==> forall i :: 0 <= i < |s| ==> IntSpace(s[i])
  {
    var a := IntLead(s);
    if a == |s| then ""
    else
      var b := IntTrail(s);
      assert !IntSpace(s[a]);
      s[a..b]
  }

  /** `int()` whitespace on both sides of a text that has none at its ends is dropped, and nothing else. */
  lemma IntStripPadded(a: string, u: string, b: string)
    requires forall i :: 0 <= i < |a| ==> IntSpace(a[i])
    requires forall i :: 0 <= i < |b| ==> IntSpace(b[i])
    requires u == "" || (!IntSpace(u[0]) && !IntSpace(u[|u| - 1]))
    ensures IntStrip(a + u + b) == u
  {
    var s := a + u + b;
    if u != "" {
      IntLeadPadded(a, u + b);
      assert a + (u + b) == s;
      IntTrailPadded(a + u, b);
      assert (a + u) + b == s;
      assert s[|a|..|a| + |u|] == u;
    }
  }

  lemma {:induction false} IntLeadPadded(a: string, v: string)
    requires forall i :: 0 <= i < |a| ==> IntSpace(a[i])
    requires v == "" || !IntSpace(v[0])
    ensures IntLead(a + v) == |a|
    decreases |a|
  {
    if |a| > 0 {
      assert (a + v)[1..] == a[1..] + v;
      IntLeadPadded(a[1..], v);
    }
  }

  lemma {:induction false} IntTrailPadded(w: string, b: string)
    requires forall i :: 0 <= i < |b| ==> IntSpace(b[i])
    requires |w| > 0 && !IntSpace(w[|w| - 1])
    ensures IntTrail(w + b) == |w|
    decreases |b|
  {
    if |b| > 0 {
      assert (w + b)[..|w + b| - 1] == w + b[..|b| - 1];
      IntTrailPadded(w, b[..|b| - 1]);
    }
  }

  /** Text `str.strip()` has already stripped has no `int()` whitespace at its ends either. */
  lemma IntStripStripped(s: string)
    ensures IntStrip(Strip(s)) == Strip(s)
  {
    IntStripPadded("", Strip(s), "");
    assert "" + Strip(s) + "" == Strip(s);
  }

  /**
    Python's `int(s)` with base 10 on a `str`: `None` where Python raises
    `ValueError`. Surrounding `int()` whitespace is ignored, one leading sign
    is allowed, and single underscores may separate digits.
   */
  function PyInt(s: string): (r: Option<int>)
    ensures r.Some? <==> IntLiteral(IntStrip(s))
    ensures r.Some? ==> IntStrip(s) != "" && IntCharsOnly(IntStrip(s))
    ensures r.Some? && IntStrip(s)[0] == '-' ==> r.value <= 0
    ensures r.Some? && IntStrip(s)[0] != '-' ==> r.value >= 0
  {
    ParseIntLiteral(IntStrip(s))
  }

  /** A text that starts with an information separator U+001C..U+001F is rejected by `int()`. */
  lemma SeparatorRejected(s: string)
    requires |s| > 0 && '\U{1C}' <= s[0] <= '\U{1F}'
    ensures PyInt(s) == None
  {
    assert !IntSpace(s[0]);
    var r := IntStrip(s);
    assert r != "";
    assert IntLead(s) == 0 && IntTrail(s) > 0;
    assert r[0] == s[0];
  }

  /** `int()` whitespace around the printed form of an integer is skipped. */
  lemma SpacesSkipped(a: string, i: int, b: string)
    requires forall k :: 0 <= k < |a| ==> IntSpace(a[k])
    requires forall k :: 0 <= k < |b| ==> IntSpace(b[k])
    ensures PyInt(a + IntToString(i) + b) == Some(i)
  {
    var s := IntToString(i);
    assert !IntSpace(s[0]) && !IntSpace(s[|s| - 1]);
    IntStripPadded(a, s, b);
    ParseCanonical(i);
  }

  lemma {:induction false} RemoveAllAbsent(s: string, c: char)
    requires c !in s
    ensures RemoveAll(s, c) == s
    decreases |s|
  {
    if |s| > 0 {
      assert c !in s[1..] by { assert forall x :: x in s[1..] ==> x in s; }
      RemoveAllAbsent(s[1..], c);
    }
  }

  lemma DigitsAreBody(s: string)
    requires |s| >= 1 && AllDigits(s)
    ensures IsIntBody(s) && '_' !in s
  {
  }

  lemma ParseCanonical(i: int)
    ensures ParseIntLiteral(IntToString(i)) == Some(i)
  {
    var s := IntToString(i);
    var n: nat := if i < 0 then -i else i;
    var digits := NatToString(n);
    DigitsAreBody(digits);
    RemoveAllAbsent(digits, '_');
    ValueOfString(n);
    if i < 0 {
      assert s[1..] == digits;
    }
  }

  /** `int(str(i)) == i` for every integer. */
  lemma PyIntRoundTrip(i: int)
    ensures PyInt(IntToString(i)) == Some(i)
  {
    var s := IntToString(i);
    assert !IntSpace(s[0]) && !IntSpace(s[|s| - 1]);
    IntStripPadded("", s, "");
    assert "" + s + "" == s;
    ParseCanonical(i);
  }
}
