/**
  Character classes and small string operations shared by every parser.

  The extractor works on Python `str` values; here a string is a `seq<char>`
  of Unicode scalar values. Whitespace follows Python's `str.isspace()`,
  which is the class `\s` matches in a `str` pattern and the class
  `str.strip()` removes.
 */
module Text {

  datatype Option<T> = None | Some(value: T)

  /** Python's `str.isspace()`: the 29 code points Python treats as whitespace. */
  predicate IsSpace(c: char) {
    || c == '\t' || c == '\n' || c == '\U{B}' || c == '\U{C}' || c == '\r'
    || ('\U{1C}' <= c <= '\U{1F}')
    || c == ' ' || c == '\U{85}' || c == '\U{A0}' || c == '\U{1680}'
    || ('\U{2000}' <= c <= '\U{200A}')
    || c == '\U{2028}' || c == '\U{2029}' || c == '\U{202F}' || c == '\U{205F}'
    || c == '\U{3000}'
  }

  /** The ASCII decimal digits; `\d` is restricted to these in this model. */
  predicate IsDigit(c: char) {
    '0' <= c <= '9'
  }

  predicate IsAsciiLetter(c: char) {
    ('A' <= c <= 'Z') || ('a' <= c <= 'z')
  }

  /**
    The characters `\w` matches, for code points up to U+024F: ASCII letters,
    digits and underscore, the Latin-1 letters and numerals, and the whole
    Latin Extended-A and -B blocks. Higher code points count as non-word.
   */
  predicate IsWordChar(c: char) {
    || IsAsciiLetter(c) || IsDigit(c) || c == '_'
    || c == '\U{AA}' || c == '\U{B2}' || c == '\U{B3}' || c == '\U{B5}'
    || c == '\U{B9}' || c == '\U{BA}' || ('\U{BC}' <= c <= '\U{BE}')
    || ('\U{C0}' <= c <= '\U{24F}' && c != '\U{D7}' && c != '\U{F7}')
  }

  function Upper(c: char): (u: char)
    ensures IsAsciiLetter(c) ==> 'A' <= u <= 'Z'
    ensures !('a' <= c <= 'z') ==> u == c
  {
    if 'a' <= c <= 'z' then (c as int - 32) as char else c
  }

  function Lower(c: char): (l: char)
    ensures IsAsciiLetter(c) ==> 'a' <= l <= 'z'
    ensures !('A' <= c <= 'Z') ==> l == c
  {
    if 'A' <= c <= 'Z' then (c as int + 32) as char else c
  }

  /**
    Whether pattern character `p` matches text character `c` under Python's
    `re.IGNORECASE` for a `str` pattern. Besides both ASCII cases, `s` also
    matches U+017F, `i` also matches U+0130 and U+0131, and `k` also matches
    U+212A (KELVIN SIGN).
   */
  predicate CiMatches(p: char, c: char) {
    if IsAsciiLetter(p) then
      var up := Upper(p);
      || c == up || c == Lower(up)
      || (up == 'S' && c == '\U{17F}')
      || (up == 'I' && (c == '\U{130}' || c == '\U{131}'))
      || (up == 'K' && c == '\U{212A}')
    else
      c == p
  }

  predicate AllSpace(s: string) {
    forall i :: 0 <= i < |s| ==> IsSpace(s[i])
  }

  predicate AllDigits(s: string) {
    forall i :: 0 <= i < |s| ==> IsDigit(s[i])
  }

  /** `s` occurs in `t` at index `i`. */
  predicate LiteralAt(t: string, i: nat, s: string) {
    i + |s| <= |t| && t[i..i + |s|] == s
  }

  /** `s` occurs in `t` at index `i`, letters compared as `re.IGNORECASE` does. */
  predicate CiLiteralAt(t: string, i: nat, s: string) {
    i + |s| <= |t| && forall k :: 0 <= k < |s| ==> CiMatches(s[k], t[i + k])
  }

  /** Number of leading whitespace characters. */
  function StripStart(s: string): (n: nat)
    ensures n <= |s|
    ensures forall i :: 0 <= i < n ==> IsSpace(s[i])
    ensures n == |s| || !IsSpace(s[n])
  {
    if |s| == 0 || !IsSpace(s[0]) then 0
    else 1 + StripStart(s[1..])
  }

  /** Index just past the last non-whitespace character (0 if there is none). */
  function StripEnd(s: string): (n: nat)
    ensures n <= |s|
    ensures forall i :: n <= i < |s| ==> IsSpace(s[i])
    ensures n == 0 || !IsSpace(s[n - 1])
  {
    if |s| == 0 || !IsSpace(s[|s| - 1]) then |s|
    else StripEnd(s[..|s| - 1])
  }

  /** Python's `str.strip()` with no argument. */
  function Strip(s: string): (r: string)
    ensures |r| <= |s|
    ensures r == "" || (!IsSpace(r[0]) && !IsSpace(r[|r| - 1]))
    ensures r == "" <==> AllSpace(s)
  {
    var a := StripStart(s);
    if a == |s| then
      ""
    else
      var b := StripEnd(s);
      assert !IsSpace(s[a]);
      assert !AllSpace(s) by { assert !IsSpace(s[a]); }
      s[a..b]
  }

  lemma ThreeParts(s: string, a: nat, b: nat)
    requires a <= b <= |s|
    ensures s == s[..a] + s[a..b] + s[b..]
  {
    assert s[..a] + s[a..b] == s[..b];
  }

  /** What stripping removes is the whitespace before and after what it keeps. */
  lemma StripSplit(s: string)
    requires Strip(s) != ""
    ensures StripStart(s) <= StripEnd(s)
    ensures s == s[..StripStart(s)] + Strip(s) + s[StripEnd(s)..]
  {
    var a, b := StripStart(s), StripEnd(s);
    assert a < b by {
      assert !AllSpace(s);
      assert !IsSpace(s[a]);
    }
    ThreeParts(s, a, b);
  }

  /** Stripping removes exactly the whitespace around a word that has none at its edges. */
  lemma StripSurrounded(pre: string, x: string, post: string)
    requires AllSpace(pre) && AllSpace(post)
    requires x != "" && !IsSpace(x[0]) && !IsSpace(x[|x| - 1])
    ensures Strip(pre + x + post) == x
  {
    var s := pre + x + post;
    assert s[|pre|] == x[0];
    assert s[|pre| + |x| - 1] == x[|x| - 1];
    assert StripStart(s) == |pre|;
    assert StripEnd(s) == |pre| + |x|;
    assert s[|pre|..|pre| + |x|] == x;
  }

  /** Stripping leaves alone exactly the strings without surrounding whitespace. */
  lemma StripFixedIff(s: string)
    ensures Strip(s) == s <==> (s == "" || (!IsSpace(s[0]) && !IsSpace(s[|s| - 1])))
  {
    if s != "" && !IsSpace(s[0]) && !IsSpace(s[|s| - 1]) {
      assert StripStart(s) == 0;
      assert !IsSpace(s[|s| - 1]);
      assert !AllSpace(s) by { assert !IsSpace(s[0]); }
    }
  }

  lemma StripIdempotent(s: string)
    ensures Strip(Strip(s)) == Strip(s)
  {
    StripFixedIff(Strip(s));
  }

  /** The non-whitespace characters of `s`, in order. */
  function Squeeze(s: string): (r: string)
    ensures |r| <= |s|
    ensures forall i :: 0 <= i < |r| ==> !IsSpace(r[i])
  {
    if |s| == 0 then ""
    else (if IsSpace(s[0]) then "" else [s[0]]) + Squeeze(s[1..])
  }

  lemma {:induction false} SqueezeAppend(a: string, b: string)
    ensures Squeeze(a + b) == Squeeze(a) + Squeeze(b)
    decreases |a|
  {
    if |a| == 0 {
      assert a + b == b;
    } else {
      assert (a + b)[1..] == a[1..] + b;
      SqueezeAppend(a[1..], b);
    }
  }

  lemma {:induction false} SqueezeAllSpace(s: string)
    requires AllSpace(s)
    ensures Squeeze(s) == ""
    decreases |s|
  {
    if |s| > 0 {
      SqueezeAllSpace(s[1..]);
    }
  }

  /** Stripping removes whitespace only: the visible content is unchanged. */
  lemma StripKeepsContent(s: string)
    ensures Squeeze(Strip(s)) == Squeeze(s)
  {
    var r := Strip(s);
    if r == "" {
      SqueezeAllSpace(s);
    } else {
      var a, b := StripStart(s), StripEnd(s);
      var pre, post := s[..a], s[b..];
      StripSplit(s);
      assert AllSpace(pre) && AllSpace(post);
      SqueezeAllSpace(pre);
      SqueezeAllSpace(post);
      SqueezeAppend(pre, r);
      SqueezeAppend(pre + r, post);
      assert Squeeze(s) == Squeeze(pre + r) + Squeeze(post);
    }
  }

  /** First index at or after `from` where `s` occurs in `t` (Python's `t.find(s, from)`). */
  function IndexOf(t: string, s: string, from: nat): (r: Option<nat>)
    requires from <= |t|
    ensures r.Some? ==> from <= r.value && LiteralAt(t, r.value, s)
    ensures r.Some? ==> forall i :: from <= i < r.value ==> !LiteralAt(t, i, s)
    ensures r.None? ==> forall i :: from <= i <= |t| ==> !LiteralAt(t, i, s)
    decreases |t| - from
  {
    if LiteralAt(t, from, s) then Some(from)
    else if from == |t| then None
    else IndexOf(t, s, from + 1)
  }

  /** Python's `s in t` for strings. */
  predicate Contains(t: string, s: string) {
    IndexOf(t, s, 0).Some?
  }

  /** Every occurrence of `c` deleted (Python's `re.sub(r'c+', '', s)`). */
  function RemoveAll(s: string, c: char): (r: string)
    ensures |s| == 1 ==> r == (if s[0] == c then "" else s)
    ensures |r| <= |s|
    ensures forall i :: 0 <= i < |r| ==> r[i] != c
    ensures forall x :: x != c ==> (x in r <==> x in s)
  {
    if |s| == 0 then ""
    else
      var rest := RemoveAll(s[1..], c);
      assert forall x :: x in s <==> x == s[0] || x in s[1..] by {
        assert s == [s[0]] + s[1..];
      }
      if s[0] == c then rest else [s[0]] + rest
  }
  /**
    Removal works piece by piece, so with the one-character case it keeps
    every other character in its place: `re.sub` deletes and never reorders.
   */
  lemma {:induction false} RemoveAllAppend(a: string, b: string, c: char)
    ensures RemoveAll(a + b, c) == RemoveAll(a, c) + RemoveAll(b, c)
    decreases |a|
  {
    if |a| == 0 {
      assert a + b == b;
    } else {
      assert (a + b)[1..] == a[1..] + b;
      RemoveAllAppend(a[1..], b, c);
    }
  }


  /** Squeezing keeps exactly the non-whitespace characters. */
  lemma {:induction false} SqueezeHas(s: string, x: char)
    requires !IsSpace(x)
    ensures x in Squeeze(s) <==> x in s
    decreases |s|
  {
    if |s| > 0 {
      SqueezeHas(s[1..], x);
      assert x in s <==> x == s[0] || x in s[1..] by {
        assert s == [s[0]] + s[1..];
      }
    }
  }

  /** Deleting a visible character commutes with dropping the whitespace. */
  lemma {:induction false} SqueezeRemove(s: string, c: char)
    requires !IsSpace(c)
    ensures Squeeze(RemoveAll(s, c)) == RemoveAll(Squeeze(s), c)
    decreases |s|
  {
    if |s| > 0 {
      SqueezeRemove(s[1..], c);
      var rest := RemoveAll(s[1..], c);
      if !IsSpace(s[0]) {
        var q := [s[0]] + Squeeze(s[1..]);
        assert Squeeze(s) == q && q[1..] == Squeeze(s[1..]);
        if s[0] != c {
          assert ([s[0]] + rest)[1..] == rest;
          assert RemoveAll(q, c) == [s[0]] + RemoveAll(Squeeze(s[1..]), c);
        }
      } else {
        assert s[0] != c && RemoveAll(s, c) == [s[0]] + rest;
        assert ([s[0]] + rest)[1..] == rest;
        assert Squeeze([s[0]] + rest) == Squeeze(rest);
        assert Squeeze(s) == "" + Squeeze(s[1..]) == Squeeze(s[1..]);
      }
    }
  }

  /** Python's `min(a, b)`. */
  function Min(a: nat, b: nat): nat {
    if a <= b then a else b
  }

  /** Python's `s[:n]`. */
  function Take(s: string, n: nat): (r: string)
    ensures |r| <= n && |r| <= |s|
    ensures |s| <= n ==> r == s
    ensures r == s[..|r|]
  {
    if |s| <= n then s else s[..n]
  }

  function CountChar(s: string, c: char): nat {
    if |s| == 0 then 0
    else (if s[0] == c then 1 else 0) + CountChar(s[1..], c)
  }

  lemma {:induction false} CountCharAppend(a: string, b: string, c: char)
    ensures CountChar(a + b, c) == CountChar(a, c) + CountChar(b, c)
    decreases |a|
  {
    if |a| == 0 {
      assert a + b == b;
    } else {
      assert (a + b)[1..] == a[1..] + b;
      CountCharAppend(a[1..], b, c);
    }
  }

  lemma {:induction false} CountCharAbsent(s: string, c: char)
    requires c !in s
    ensures CountChar(s, c) == 0
    decreases |s|
  {
    if |s| > 0 {
      assert c !in s[1..] by { assert forall x :: x in s[1..] ==> x in s; }
      CountCharAbsent(s[1..], c);
    }
  }

  /** The parts between consecutive `c`s (Python's `s.split(c)` for a one-character separator). */
  function SplitOn(s: string, c: char): (parts: seq<string>)
    ensures |parts| == CountChar(s, c) + 1
    ensures forall k :: 0 <= k < |parts| ==> c !in parts[k]
    decreases |s|
  {
    var i := IndexOf(s, [c], 0);
    if i.None? then
      assert c !in s by {
        forall j | 0 <= j < |s| ensures s[j] != c {
          assert !LiteralAt(s, j, [c]);
          assert s[j..j + 1] == [s[j]];
        }
      }
      CountCharAbsent(s, c);
      [s]
    else
      var k := i.value;
      var head := s[..k];
      assert c !in head by {
        forall j | 0 <= j < |head| ensures head[j] != c {
          assert !LiteralAt(s, j, [c]);
          assert s[j..j + 1] == [head[j]];
        }
      }
      assert s == head + [c] + s[k + 1..];
      CountCharAppend(head + [c], s[k + 1..], c);
      CountCharAppend(head, [c], c);
      CountCharAbsent(head, c);
      [head] + SplitOn(s[k + 1..], c)
  }

  /** The parts put back together with `c` between them (Python's `c.join(parts)`). */
  function Join(parts: seq<string>, c: char): string
    requires |parts| >= 1
  {
    if |parts| == 1 then parts[0] else parts[0] + [c] + Join(parts[1..], c)
  }

  /** Splitting loses nothing: joining the parts gives back the input. */
  lemma {:induction false} JoinSplit(s: string, c: char)
    ensures Join(SplitOn(s, c), c) == s
    decreases |s|
  {
    var i := IndexOf(s, [c], 0);
    if i.Some? {
      var k := i.value;
      JoinSplit(s[k + 1..], c);
      assert s == s[..k] + [c] + s[k + 1..];
    }
  }

  /** Joining separator-free parts and splitting again gives back the parts. */
  lemma {:induction false} SplitJoin(parts: seq<string>, c: char)
    requires |parts| >= 1
    requires forall k :: 0 <= k < |parts| ==> c !in parts[k]
    ensures SplitOn(Join(parts, c), c) == parts
    decreases |parts|
  {
    var s := Join(parts, c);
    var h := parts[0];
    if |parts| == 1 {
      assert IndexOf(s, [c], 0).None? by {
        forall j | 0 <= j <= |s| ensures !LiteralAt(s, j, [c]) {
          assert j < |s| ==> s[j..j + 1] == [s[j]];
        }
      }
    } else {
      assert s == h + [c] + Join(parts[1..], c);
      assert LiteralAt(s, |h|, [c]);
      forall j | 0 <= j < |h| ensures !LiteralAt(s, j, [c]) {
        assert s[j] == h[j];
      }
      assert IndexOf(s, [c], 0) == Some(|h|);
      assert s[|h| + 1..] == Join(parts[1..], c);
      assert s[..|h|] == h;
      SplitJoin(parts[1..], c);
    }
  }

  /** A character absent from `s` is absent from every part of its split. */
  lemma {:induction false} SplitOnAbsent(s: string, c: char, d: char)
    requires d !in s
    ensures forall k :: 0 <= k < |SplitOn(s, c)| ==> d !in SplitOn(s, c)[k]
    decreases |s|
  {
    var i := IndexOf(s, [c], 0);
    if i.Some? {
      var k := i.value;
      assert d !in s[..k] by {
        forall j | 0 <= j < k ensures s[..k][j] != d {
          assert s[..k][j] == s[j];
        }
      }
      var rest := s[k + 1..];
      assert d !in rest by {
        forall j | 0 <= j < |rest| ensures rest[j] != d {
          assert rest[j] == s[k + 1 + j];
        }
      }
      SplitOnAbsent(s[k + 1..], c, d);
    }
  }

  /** Stripping adds no character. */
  lemma StripAbsent(s: string, d: char)
    requires d !in s
    ensures d !in Strip(s)
  {
    var r := Strip(s);
    if r != "" {
      var a, b := StripStart(s), StripEnd(s);
      assert r == s[a..b];
      forall j | 0 <= j < |r| ensures r[j] != d {
        assert r[j] == s[a + j];
      }
    }
  }

  /** The values of the `Some` entries, in order: what a loop that skips failures collects. */
  function Somes<T>(xs: seq<Option<T>>): (ys: seq<T>)
    ensures |ys| <= |xs|
    ensures forall k :: 0 <= k < |ys| ==> Some(ys[k]) in xs
    ensures forall k :: 0 <= k < |xs| && xs[k].Some? ==> xs[k].value in ys
    ensures (forall k :: 0 <= k < |xs| ==> xs[k].Some?) ==>
              |ys| == |xs| && forall k :: 0 <= k < |xs| ==> ys[k] == xs[k].value
  {
    if |xs| == 0 then []
    else
      var rest := Somes(xs[1..]);
      var ys := (if xs[0].Some? then [xs[0].value] else []) + rest;
      assert forall k :: 1 <= k < |xs| ==> xs[k] == xs[1..][k - 1];
      assert forall k :: 0 <= k < |rest| ==> Some(rest[k]) in xs[1..];
      assert forall x :: x in xs[1..] ==> x in xs;
      ys
  }
}
