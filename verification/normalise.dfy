/**
  The whitespace normaliser `re.sub(r'\s+', ' ', text)` that every parser of
  the extractor applies to its input before matching
  (entrepreneurship_quiz_v2.py, lines 80, 113, 131, 144, 173 and 196).
 */
module Normalise {
  import opened Text

  /** Whitespace at `i` and at `i + 1`. */
  predicate DoubleSpace(s: string, i: nat)
    requires i + 1 < |s|
  {
    IsSpace(s[i]) && IsSpace(s[i + 1])
  }

  /** Every whitespace character is a plain space and no two are adjacent. */
  predicate IsCollapsed(s: string) {
    && (forall i :: 0 <= i < |s| && IsSpace(s[i]) ==> s[i] == ' ')
    && (forall i :: 0 <= i < |s| - 1 ==> !DoubleSpace(s, i))
  }

  lemma ConsCollapsed(c: char, rest: string)
    requires IsCollapsed(rest)
    requires IsSpace(c) ==> c == ' ' && (rest == "" || !IsSpace(rest[0]))
    ensures IsCollapsed([c] + rest)
  {
    var r := [c] + rest;
    forall i | 0 <= i < |r| - 1 ensures !DoubleSpace(r, i) {
      if i > 0 {
        assert r[i] == rest[i - 1] && r[i + 1] == rest[i];
        assert !DoubleSpace(rest, i - 1);
      }
    }
  }

  /**
    `r` is a normalised form of `s`: normalised, with the same visible
    content, no longer, and with whitespace at its ends exactly where `s` has.
   */
  predicate Normalises(s: string, r: string) {
    && IsCollapsed(r)
    && Squeeze(r) == Squeeze(s)
    && |r| <= |s|
    && (r == "" <==> s == "")
    && (s != "" ==> (IsSpace(s[0]) <==> IsSpace(r[0])))
    && (s != "" ==> (IsSpace(s[|s| - 1]) <==> IsSpace(r[|r| - 1])))
  }

  /** Each maximal run of whitespace replaced by one space. */
  function Collapse(s: string): (r: string)
    ensures |r| <= |s| && (r == "" <==> s == "")
    decreases |s|
  {
    if |s| == 0 then ""
    else if IsSpace(s[0]) then [' '] + Collapse(s[StripStart(s)..])
    else [s[0]] + Collapse(s[1..])
  }

  /**
    The result is a normalised form of the input: normalised, with the same
    visible characters in order, and whitespace at either end exactly where
    the input has it.
   */
  lemma {:induction false} CollapseNormalises(s: string)
    ensures Normalises(s, Collapse(s))
    decreases |s|
  {
    if |s| > 0 {
      if IsSpace(s[0]) {
        var k := StripStart(s);
        CollapseNormalises(s[k..]);
        SpaceRunNormalises(s, k, Collapse(s[k..]));
      } else {
        CollapseNormalises(s[1..]);
        CharNormalises(s, Collapse(s[1..]));
      }
    }
  }

  /** A run of leading whitespace normalises to one space before the rest. */
  lemma SpaceRunNormalises(s: string, k: nat, rest: string)
    requires s != "" && IsSpace(s[0]) && k == StripStart(s) && Normalises(s[k..], rest)
    ensures Normalises(s, [' '] + rest)
  {
    SqueezeAfterSpace(s, k);
    SqueezeCons(' ', rest);
    ConsCollapsed(' ', rest);
    if k < |s| {
      assert s[k..][0] == s[k] && s[k..][|s| - k - 1] == s[|s| - 1];
    }
  }

  /** A visible first character is kept, then the rest normalised. */
  lemma CharNormalises(s: string, rest: string)
    requires s != "" && !IsSpace(s[0]) && Normalises(s[1..], rest)
    ensures Normalises(s, [s[0]] + rest)
  {
    SqueezeCons(s[0], rest);
    ConsCollapsed(s[0], rest);
    if |s| > 1 {
      assert s[1..][0] == s[1] && s[1..][|s| - 2] == s[|s| - 1];
    }
  }

  lemma SqueezeCons(c: char, rest: string)
    ensures Squeeze([c] + rest) == (if IsSpace(c) then "" else [c]) + Squeeze(rest)
  {
    assert ([c] + rest)[1..] == rest;
  }

  lemma SplitAt(s: string, k: nat)
    requires k <= |s| && forall i :: 0 <= i < k ==> IsSpace(s[i])
    ensures s == s[..k] + s[k..] && AllSpace(s[..k])
  {
  }

  /** Leading whitespace contributes nothing to the visible content. */
  lemma SqueezeAfterSpace(s: string, k: nat)
    requires k <= |s| && forall i :: 0 <= i < k ==> IsSpace(s[i])
    ensures Squeeze(s) == Squeeze(s[k..])
  {
    SplitAt(s, k);
    SqueezeAppend(s[..k], s[k..]);
    SqueezeAllSpace(s[..k]);
  }

  /** Normalised text is exactly the text normalisation leaves unchanged. */
  lemma {:induction false} CollapseFixedIff(s: string)
    ensures Collapse(s) == s <==> IsCollapsed(s)
    decreases |s|
  {
    CollapseNormalises(s);
    if IsCollapsed(s) && |s| > 0 {
      CollapsedSlice(s, 1, |s|);
      assert s[1..|s|] == s[1..];
      CollapseFixedIff(s[1..]);
      if IsSpace(s[0]) && |s| > 1 {
        assert !DoubleSpace(s, 0);
        assert StripStart(s) == 1;
      }
    }
  }

  /** Normalising twice is the same as normalising once. */
  lemma CollapseIdempotent(s: string)
    ensures Collapse(Collapse(s)) == Collapse(s)
  {
    CollapseNormalises(s);
    CollapseFixedIff(Collapse(s));
  }

  /** The leading whitespace of `s` is exactly its first `n` characters. */
  lemma {:induction false} StripStartIs(s: string, n: nat)
    requires n <= |s| && (forall i :: 0 <= i < n ==> IsSpace(s[i])) && (n == |s| || !IsSpace(s[n]))
    ensures StripStart(s) == n
  {
    if n > 0 {
      assert IsSpace(s[0]);
      assert forall i :: 0 <= i < n - 1 ==> s[1..][i] == s[i + 1];
      StripStartIs(s[1..], n - 1);
    }
  }

  /** A whitespace run on its own becomes one space. */
  lemma CollapseRun(w: string)
    requires |w| > 0 && AllSpace(w)
    ensures Collapse(w) == " "
  {
    StripStartIs(w, |w|);
    assert w[|w|..] == "";
  }

  /** A visible first character is kept in front of the rest, normalised. */
  lemma CollapseVisibleHead(s: string)
    requires s != "" && !IsSpace(s[0])
    ensures Collapse(s) == [s[0]] + Collapse(s[1..])
  {
  }

  /** A leading whitespace run becomes one space in front of the rest, normalised. */
  lemma CollapseSpaceHead(s: string)
    requires s != "" && IsSpace(s[0])
    ensures Collapse(s) == [' '] + Collapse(s[StripStart(s)..])
  {
  }

  /** Dropping a prefix of `u` from `u + v`. */
  lemma DropFromAppend(u: string, v: string, k: nat)
    requires k <= |u|
    ensures (u + v)[k..] == u[k..] + v
  {
  }

  lemma ConsAssoc(c: char, a: string, b: string)
    ensures [c] + (a + b) == [c] + a + b
  {
  }

  lemma AppendVisibleStep(u: string, v: string)
    requires u != "" && !IsSpace(u[0])
    requires Collapse(u[1..] + v) == Collapse(u[1..]) + Collapse(v)
    ensures Collapse(u + v) == Collapse(u) + Collapse(v)
  {
    DropFromAppend(u, v, 1);
    assert (u + v)[0] == u[0];
    CollapseVisibleHead(u + v);
    CollapseVisibleHead(u);
    ConsAssoc(u[0], Collapse(u[1..]), Collapse(v));
  }

  /** Leading whitespace that ends inside `u` is not affected by what follows `u`. */
  lemma StripStartAppend(u: string, v: string)
    requires StripStart(u) < |u|
    ensures StripStart(u + v) == StripStart(u)
  {
    var s, k := u + v, StripStart(u);
    forall i | 0 <= i < k ensures IsSpace(s[i]) {
      assert s[i] == u[i];
    }
    assert s[k] == u[k];
    StripStartIs(s, k);
  }

  lemma AppendSpaceStep(u: string, v: string, k: nat)
    requires u != "" && IsSpace(u[0]) && k == StripStart(u) && k < |u|
    requires Collapse(u[k..] + v) == Collapse(u[k..]) + Collapse(v)
    ensures Collapse(u + v) == Collapse(u) + Collapse(v)
  {
    StripStartAppend(u, v);
    DropFromAppend(u, v, k);
    assert (u + v)[0] == u[0];
    CollapseSpaceHead(u + v);
    CollapseSpaceHead(u);
    ConsAssoc(' ', Collapse(u[k..]), Collapse(v));
  }

  lemma AppendRunStep(u: string, v: string)
    requires u != "" && AllSpace(u) && (v == "" || !IsSpace(v[0]))
    ensures Collapse(u + v) == Collapse(u) + Collapse(v)
  {
    var s := u + v;
    forall i | 0 <= i < |u| ensures IsSpace(s[i]) {
      assert s[i] == u[i];
    }
    StripStartIs(s, |u|);
    assert s[|u|..] == v;
    CollapseSpaceHead(s);
    CollapseRun(u);
  }

  /**
    Normalising works piece by piece wherever the cut does not fall inside a
    whitespace run.
   */
  lemma {:induction false} CollapseAppend(u: string, v: string)
    requires u == "" || v == "" || !IsSpace(u[|u| - 1]) || !IsSpace(v[0])
    ensures Collapse(u + v) == Collapse(u) + Collapse(v)
    decreases |u|
  {
    if u == "" {
      assert u + v == v;
    } else if v == "" {
      assert u + v == u;
    } else if !IsSpace(u[0]) {
      CollapseAppend(u[1..], v);
      AppendVisibleStep(u, v);
    } else {
      var k := StripStart(u);
      if k == |u| {
        AppendRunStep(u, v);
      } else {
        CollapseAppend(u[k..], v);
        AppendSpaceStep(u, v, k);
      }
    }
  }

  /** A whitespace run followed by a visible character or nothing becomes one space. */
  lemma CollapseRunThen(w: string, v: string)
    requires |w| > 0 && AllSpace(w)
    requires v == "" || !IsSpace(v[0])
    ensures Collapse(w + v) == " " + Collapse(v)
  {
    CollapseAppend(w, v);
    CollapseRun(w);
  }

  /**
    Every maximal whitespace run becomes exactly one space: a run `w` between
    a text ending in a visible character and one starting with a visible
    character is replaced by `" "`, and the two sides are normalised on
    their own.
   */
  lemma CollapseSplit(u: string, w: string, v: string)
    requires u == "" || !IsSpace(u[|u| - 1])
    requires |w| > 0 && AllSpace(w)
    requires v == "" || !IsSpace(v[0])
    ensures Collapse(u + (w + v)) == Collapse(u) + (" " + Collapse(v))
  {
    CollapseRunThen(w, v);
    CollapseAppend(u, w + v);
  }

  /** Text without whitespace is left as it is. */
  lemma CollapseVisible(x: string)
    requires forall i :: 0 <= i < |x| ==> !IsSpace(x[i])
    ensures Collapse(x) == x
  {
    CollapseFixedIff(x);
  }

  /** Any piece of normalised text is normalised. */
  lemma CollapsedSlice(s: string, i: nat, j: nat)
    requires i <= j <= |s| && IsCollapsed(s)
    ensures IsCollapsed(s[i..j])
  {
    var t := s[i..j];
    forall k | 0 <= k < |t| - 1 ensures !DoubleSpace(t, k) {
      assert t[k] == s[i + k] && t[k + 1] == s[i + k + 1];
      assert !DoubleSpace(s, i + k);
    }
  }

  lemma StripCollapsed(s: string)
    requires IsCollapsed(s)
    ensures IsCollapsed(Strip(s))
  {
    if Strip(s) != "" {
      assert Strip(s) == s[StripStart(s)..StripEnd(s)];
      CollapsedSlice(s, StripStart(s), StripEnd(s));
    }
  }

  /** Two pieces of normalised text joined where at most one side has whitespace. */
  lemma CollapsedJoin(x: string, y: string)
    requires IsCollapsed(x) && IsCollapsed(y)
    requires x == "" || y == "" || !IsSpace(x[|x| - 1]) || !IsSpace(y[0])
    ensures IsCollapsed(x + y)
  {
    var s := x + y;
    forall i | 0 <= i < |s| - 1 ensures !DoubleSpace(s, i) {
      if i + 1 < |x| {
        assert s[i] == x[i] && s[i + 1] == x[i + 1];
        assert !DoubleSpace(x, i);
      } else if i + 1 == |x| {
        assert s[i] == x[i] && s[i + 1] == y[0];
      } else {
        assert s[i] == y[i - |x|] && s[i + 1] == y[i + 1 - |x|];
        assert !DoubleSpace(y, i - |x|);
      }
    }
  }
}
