/** The Python string built-ins the scraper relies on: `str.strip()`,
    `sep.join(parts)`, and `str.split(c)` as the inverse of a join. */
module Text {

  /** Python's `str.isspace()` for one character: the ASCII controls TAB to CR,
      the separators U+001C to U+001F, SPACE, NEL, NO-BREAK SPACE and the Unicode
      space separators and line/paragraph separators. */
  predicate IsSpace(c: char) {
    || ('\t' <= c <= '\r')
    || ('\U{1C}' <= c <= ' ')
    || c == '\U{85}' || c == '\U{A0}' || c == '\U{1680}'
    || ('\U{2000}' <= c <= '\U{200A}')
    || c == '\U{2028}' || c == '\U{2029}' || c == '\U{202F}'
    || c == '\U{205F}' || c == '\U{3000}'
  }

  /** Every character of `s` is whitespace. */
  predicate AllSpace(s: string)
    decreases |s|
  {
    |s| == 0 || (IsSpace(s[0]) && AllSpace(s[1..]))
  }

  /** Neither end of `s` is whitespace: the shape of anything `str.strip()` returns. */
  predicate Trimmed(s: string) {
    s == [] || (!IsSpace(s[0]) && !IsSpace(s[|s| - 1]))
  }

  lemma {:induction false} AllSpaceConcat(x: string, y: string)
    requires AllSpace(x) && AllSpace(y)
    ensures AllSpace(x + y)
    decreases |x|
  {
    if x == [] {
      assert x + y == y;
    } else {
      assert (x + y)[0] == x[0];
      assert (x + y)[1..] == x[1..] + y;
      AllSpaceConcat(x[1..], y);
    }
  }

  /** Each character of a whitespace-only string is whitespace. */
  lemma {:induction false} AllSpaceAt(s: string, i: nat)
    requires AllSpace(s) && i < |s|
    ensures IsSpace(s[i])
    decreases i
  {
    if i > 0 {
      assert s[1..][i - 1] == s[i];
      AllSpaceAt(s[1..], i - 1);
    }
  }

  /** A whitespace-only string without its last character is whitespace-only. */
  lemma {:induction false} AllSpaceInit(s: string)
    requires AllSpace(s) && |s| > 0
    ensures AllSpace(s[..|s| - 1])
    decreases |s|
  {
    if |s| > 1 {
      var s' := s[..|s| - 1];
      assert s'[0] == s[0];
      assert s'[1..] == s[1..][..|s[1..]| - 1];
      AllSpaceInit(s[1..]);
    }
  }

  /** `l` is what is left of `s` once a whitespace prefix is cut off, and it
      does not itself start with whitespace. */
  predicate LeftCut(s: string, l: string) {
    && |l| <= |s| && l == s[|s| - |l|..]
    && AllSpace(s[..|s| - |l|])
    && (l == [] || !IsSpace(l[0]))
  }

  /** `r` is what is left of `s` once a whitespace suffix is cut off, and it
      does not itself end with whitespace. */
  predicate RightCut(s: string, r: string) {
    && |r| <= |s| && r == s[..|r|]
    && AllSpace(s[|r|..])
    && (r == [] || !IsSpace(r[|r| - 1]))
  }

  /** One step of `lstrip`: a whitespace character in front of a cut suffix. */
  lemma LeftStep(s: string, r: string)
    requires |s| > 0 && IsSpace(s[0])
    requires LeftCut(s[1..], r)
    ensures LeftCut(s, r)
  {
    var k := |s| - |r|;
    assert s[..k][0] == s[0];
    assert s[..k][1..] == s[1..][..k - 1];
  }

  /** One step of `rstrip`: a whitespace character after a cut prefix. */
  lemma RightStep(s: string, r: string)
    requires |s| > 0 && IsSpace(s[|s| - 1])
    requires RightCut(s[..|s| - 1], r)
    ensures RightCut(s, r)
  {
    assert s[|r|..] == s[..|s| - 1][|r|..] + [s[|s| - 1]];
    assert AllSpace([s[|s| - 1]]) by {
      assert [s[|s| - 1]][1..] == [];
    }
    AllSpaceConcat(s[..|s| - 1][|r|..], [s[|s| - 1]]);
  }

  /** Python's `s.lstrip()`: `s` without its leading whitespace. */
  function StripLeft(s: string): (r: string)
    ensures LeftCut(s, r)
    decreases |s|
  {
    if |s| > 0 && IsSpace(s[0]) then
      var r := StripLeft(s[1..]);
      LeftStep(s, r);
      r
    else
      s
  }

  /** Python's `s.rstrip()`: `s` without its trailing whitespace. */
  function StripRight(s: string): (r: string)
    ensures RightCut(s, r)
    decreases |s|
  {
    if |s| > 0 && IsSpace(s[|s| - 1]) then
      var r := StripRight(s[..|s| - 1]);
      RightStep(s, r);
      r
    else
      s
  }

  /** Python's `s.strip()`: `s` with the whitespace at both ends removed. */
  function Strip(s: string): (r: string)
    ensures Trimmed(r)
    ensures r == [] <==> AllSpace(s)
  {
    var l := StripLeft(s);
    var r := StripRight(l);
    StripShape(s, l, r);
    r
  }

  /** Cutting a whitespace prefix and then a whitespace suffix leaves a
      trimmed piece, empty exactly when everything was whitespace. */
  lemma StripShape(s: string, l: string, r: string)
    requires LeftCut(s, l) && RightCut(l, r)
    ensures Trimmed(r)
    ensures r == [] <==> AllSpace(s)
  {
    if r == [] {
      assert l == l[|r|..];
      assert s == s[..|s| - |l|] + l;
      AllSpaceConcat(s[..|s| - |l|], l);
    } else {
      assert r[0] == l[0] == s[|s| - |l|];
      if AllSpace(s) {
        AllSpaceAt(s, |s| - |l|);
        assert false;
      }
    }
  }

  /** The stripped text sits in the original with only whitespace on either side. */
  lemma StripSurround(s: string) returns (w1: string, w2: string)
    ensures s == w1 + Strip(s) + w2
    ensures AllSpace(w1) && AllSpace(w2)
  {
    var l := StripLeft(s);
    var r := StripRight(l);
    w1 := s[..|s| - |l|];
    w2 := l[|r|..];
    SurroundPieces(s, l, r);
  }

  lemma SurroundPieces(s: string, l: string, r: string)
    requires |l| <= |s| && l == s[|s| - |l|..]
    requires |r| <= |l| && r == l[..|r|]
    ensures s == s[..|s| - |l|] + r + l[|r|..]
  {
    assert s == s[..|s| - |l|] + l;
    assert l == r + l[|r|..];
  }

  lemma ConsPieces(w: string, t: string)
    requires |w| > 0
    ensures (w + t)[0] == w[0] && (w + t)[1..] == w[1..] + t
  {
  }

  lemma SnocPieces(t: string, w: string)
    requires |w| > 0
    ensures |t + w| > 0
    ensures (t + w)[|t + w| - 1] == w[|w| - 1]
    ensures (t + w)[..|t + w| - 1] == t + w[..|w| - 1]
  {
  }

  lemma AppendAssoc(a: string, b: string, c: string)
    ensures a + b + c == a + (b + c)
    ensures |b| > 0 ==> (b + c)[0] == b[0]
    ensures b == [] ==> a + b + c == a + c
  {
  }

  lemma {:induction false} StripLeftUnique(w: string, t: string)
    requires AllSpace(w) && (t == [] || !IsSpace(t[0]))
    ensures StripLeft(w + t) == t
    decreases |w|
  {
    if w == [] {
      assert w + t == t;
    } else {
      ConsPieces(w, t);
      StripLeftUnique(w[1..], t);
    }
  }

  lemma {:induction false} StripRightUnique(t: string, w: string)
    requires AllSpace(w) && (t == [] || !IsSpace(t[|t| - 1]))
    ensures StripRight(t + w) == t
    decreases |w|
  {
    if w == [] {
      assert t + w == t;
    } else {
      AllSpaceAt(w, |w| - 1);
      AllSpaceInit(w);
      SnocPieces(t, w);
      StripRightUnique(t, w[..|w| - 1]);
    }
  }

  /** `strip()` is determined by its result's shape: whatever is surrounded by
      whitespace only and is itself trimmed is what `strip()` returns. */
  lemma StripUnique(w1: string, r: string, w2: string)
    requires AllSpace(w1) && AllSpace(w2) && Trimmed(r)
    ensures Strip(w1 + r + w2) == r
  {
    AppendAssoc(w1, r, w2);
    if r == [] {
      AllSpaceConcat(w1, w2);
      StripLeftUnique(w1 + w2, []);
      AppendAssoc(w1, w2, []);
    } else {
      StripLeftUnique(w1, r + w2);
      StripRightUnique(r, w2);
    }
  }

  /** Stripping twice changes nothing more than stripping once. */
  lemma StripIdempotent(s: string)
    ensures Strip(Strip(s)) == Strip(s)
  {
    StripUnique([], Strip(s), []);
    assert [] + Strip(s) + [] == Strip(s);
  }

  /** Python's `sep.join(parts)`. */
  function Join(sep: string, parts: seq<string>): string
    decreases |parts|
  {
    if |parts| == 0 then []
    else if |parts| == 1 then parts[0]
    else parts[0] + sep + Join(sep, parts[1..])
  }

  /** Joining two non-empty lists puts one separator between their joins. */
  lemma {:induction false} JoinAppend(sep: string, a: seq<string>, b: seq<string>)
    requires |a| > 0 && |b| > 0
    ensures Join(sep, a + b) == Join(sep, a) + sep + Join(sep, b)
    decreases |a|
  {
    if |a| == 1 {
      assert (a + b)[1..] == b;
    } else {
      assert (a + b)[1..] == a[1..] + b;
      JoinAppend(sep, a[1..], b);
    }
  }

  /** The join of a list starts with the join of any of its prefixes. */
  lemma JoinPrefix(sep: string, a: seq<string>, b: seq<string>)
    ensures Join(sep, a) <= Join(sep, a + b)
  {
    if a == [] {
    } else if b == [] {
      assert a + b == a;
    } else {
      JoinAppend(sep, a, b);
    }
  }

  /** Python's `s.split(c)`: the pieces of `s` between occurrences of `c`;
      the empty string splits into one empty piece. */
  function Split(s: string, c: char): (r: seq<string>)
    ensures |r| >= 1
    decreases |s|
  {
    if |s| == 0 then [[]]
    else
      var rest := Split(s[1..], c);
      if s[0] == c then [[]] + rest else [[s[0]] + rest[0]] + rest[1..]
  }

  /** A separator-free prefix is glued onto the first piece of what follows it. */
  lemma {:induction false} SplitSeparatorFree(p: string, t: string, c: char)
    requires c !in p
    ensures Split(p + t, c) == [p + Split(t, c)[0]] + Split(t, c)[1..]
    decreases |p|
  {
    if p == [] {
      assert p + t == t;
      var r := Split(t, c);
      assert r == [r[0]] + r[1..];
      assert p + r[0] == r[0];
    } else {
      ConsPieces(p, t);
      SplitSeparatorFree(p[1..], t, c);
      var r := Split(t, c);
      ListPieces(Split(p[1..] + t, c), p[1..] + r[0], r[1..]);
      GlueHead(p, r[0]);
    }
  }

  lemma ListPieces<T>(xs: seq<T>, x: T, ys: seq<T>)
    requires xs == [x] + ys
    ensures |xs| >= 1 && xs[0] == x && xs[1..] == ys
  {
  }

  lemma GlueHead(p: string, q: string)
    requires |p| > 0
    ensures [p[0]] + (p[1..] + q) == p + q
  {
    assert p == [p[0]] + p[1..];
  }

  /** Splitting a one-character-separator join gives the parts back, provided no
      part contains the separator. */
  lemma {:induction false} SplitJoin(parts: seq<string>, c: char)
    requires |parts| >= 1
    requires forall k :: 0 <= k < |parts| ==> c !in parts[k]
    ensures Split(Join([c], parts), c) == parts
    decreases |parts|
  {
    if |parts| == 1 {
      SplitSeparatorFree(parts[0], [], c);
      assert parts[0] + [] == parts[0];
    } else {
      var tail := Join([c], parts[1..]);
      SplitJoin(parts[1..], c);
      assert parts[0] + [c] + tail == parts[0] + ([c] + tail);
      SplitSeparatorFree(parts[0], [c] + tail, c);
      assert ([c] + tail)[1..] == tail;
      assert Split([c] + tail, c) == [[]] + parts[1..];
      assert parts[0] + [] == parts[0];
      assert parts == [parts[0]] + parts[1..];
    }
  }
}
