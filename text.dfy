/** The Python string primitives the text pipeline of main.py relies on:
    str.isspace (also what the regex class \s matches), str.strip,
    str.replace and the decimal rendering of an int in an f-string. */
module Text {

  /** Python's str.isspace(): the characters \s matches in a str pattern. */
  predicate IsSpace(c: char)
  {
    ('\t' <= c <= '\r') || ('\U{1c}' <= c <= ' ') || c == '\U{85}' || c == '\U{a0}'
    || c == '\U{1680}' || ('\U{2000}' <= c <= '\U{200a}') || c == '\U{2028}'
    || c == '\U{2029}' || c == '\U{202f}' || c == '\U{205f}' || c == '\U{3000}'
  }

  /** The decimal digits 0-9 (what \d matches, restricted to ASCII). */
  predicate IsDigit(c: char)
  {
    '0' <= c <= '9'
  }

  /** Index of the first non-digit at or after p (|s| if there is none). */
  function SkipDigits(s: string, p: nat): (q: nat)
    requires p <= |s|
    ensures p <= q <= |s| && (q == |s| || !IsDigit(s[q]))
    decreases |s| - p
  {
    if p < |s| && IsDigit(s[p]) then SkipDigits(s, p + 1) else p
  }

  /** The digit skip from a finds b when the characters in between are digits
      and the one at b is not. */
  lemma {:induction false} SkipDigitsExact(s: string, a: nat, b: nat)
    requires a <= b < |s| && !IsDigit(s[b])
    requires forall j :: a <= j < b ==> IsDigit(s[j])
    ensures SkipDigits(s, a) == b
    decreases b - a
  {
    if a < b {
      SkipDigitsExact(s, a + 1, b);
    }
  }

  predicate AllSpace(s: string)
  {
    forall i :: 0 <= i < |s| ==> IsSpace(s[i])
  }

  lemma {:induction false} SliceOfSlice(s: string, a: nat, b: nat, i: nat, j: nat)
    requires a <= b <= |s| && i <= j <= b - a
    ensures s[a..b][i..j] == s[a + i..a + j]
  {
    forall k | 0 <= k < j - i ensures s[a..b][i..j][k] == s[a + i..a + j][k] {
      assert s[a..b][i..j][k] == s[a..b][i + k] == s[a + i + k];
    }
  }

  lemma {:induction false} SliceSplit(s: string, a: nat, b: nat, c: nat)
    requires a <= b <= c <= |s|
    ensures s[a..c] == s[a..b] + s[b..c]
  {
  }

  lemma {:induction false} SuffixSplit(s: string, a: nat, b: nat)
    requires a <= b <= |s|
    ensures s[a..] == s[a..b] + s[b..]
  {
  }

  lemma {:induction false} AllSpaceConcat(a: string, b: string)
    requires AllSpace(a) && AllSpace(b)
    ensures AllSpace(a + b)
  {
    forall i | 0 <= i < |a + b| ensures IsSpace((a + b)[i]) {
      if i < |a| {
        assert (a + b)[i] == a[i];
      } else {
        assert (a + b)[i] == b[i - |a|];
      }
    }
  }

  /** Two whitespace runs side by side make one. */
  lemma AllSpaceJoin(s: string, a: nat, b: nat, c: nat)
    requires a <= b <= c <= |s| && AllSpace(s[a..b]) && AllSpace(s[b..c])
    ensures AllSpace(s[a..c])
  {
    SliceSplit(s, a, b, c);
    AllSpaceConcat(s[a..b], s[b..c]);
  }

  /** No character of a occurs in b. */
  predicate Disjoint(a: string, b: string)
  {
    forall i, j :: 0 <= i < |a| && 0 <= j < |b| ==> a[i] != b[j]
  }

  /** Index of the first non-whitespace character at or after p (|s| if there is none). */
  function SkipSpace(s: string, p: nat): (q: nat)
    requires p <= |s|
    ensures p <= q <= |s|
    ensures AllSpace(s[p..q])
    ensures q == |s| || !IsSpace(s[q])
    decreases |s| - p
  {
    if p < |s| && IsSpace(s[p]) then SkipSpace(s, p + 1) else p
  }

  /** Length of s without its trailing whitespace. */
  function TrimmedLength(s: string): (n: nat)
    ensures n <= |s|
    ensures AllSpace(s[n..])
    ensures n == 0 || !IsSpace(s[n - 1])
    decreases |s|
  {
    if |s| > 0 && IsSpace(s[|s| - 1]) then TrimmedLength(s[..|s| - 1]) else |s|
  }

  /** Python's str.strip() without argument. */
  function Strip(s: string): (r: string)
    ensures r == [] || (!IsSpace(r[0]) && !IsSpace(r[|r| - 1]))
    ensures var lo := SkipSpace(s, 0);
      lo + |r| <= |s| && r == s[lo..lo + |r|] && AllSpace(s[..lo]) && AllSpace(s[lo + |r|..])
  {
    var lo := SkipSpace(s, 0);
    s[lo..][..TrimmedLength(s[lo..])]
  }

  /** Stripping a text that starts with a non-space character only cuts its tail. */
  lemma {:induction false} StripFromNonSpace(x: string)
    requires |x| > 0 && !IsSpace(x[0])
    ensures 0 < TrimmedLength(x) && Strip(x) == x[..TrimmedLength(x)]
  {
    assert SkipSpace(x, 0) == 0;
    assert x[0..] == x;
  }

  /** A text that does not begin or end with whitespace is its own strip. */
  lemma {:induction false} StripStripped(x: string)
    requires x == [] || (!IsSpace(x[0]) && !IsSpace(x[|x| - 1]))
    ensures Strip(x) == x
  {
    if x != [] {
      StripFromNonSpace(x);
      assert TrimmedLength(x) == |x|;
    }
  }

  /** Stripping a text that starts with a non-space character leaves a
      non-empty prefix of it, followed in it only by whitespace. */
  lemma {:induction false} StripPrefix(x: string)
    requires |x| > 0 && !IsSpace(x[0])
    ensures var c := Strip(x); 0 < |c| <= |x| && c == x[..|c|] && AllSpace(x[|c|..])
  {
    StripFromNonSpace(x);
  }

  /** Whitespace appended to a text ending in a non-space character is what strip cuts. */
  lemma {:induction false} TrimmedPadded(x: string, y: string)
    requires x == [] || !IsSpace(x[|x| - 1])
    requires AllSpace(y)
    ensures TrimmedLength(x + y) == |x|
    decreases |y|
  {
    if y == [] {
      assert x + y == x;
    } else {
      var y' := y[..|y| - 1];
      assert (x + y)[..|x + y| - 1] == x + y';
      TrimmedPadded(x, y');
    }
  }

  /** Stripping x followed by whitespace gives x back when x has no surrounding whitespace. */
  lemma {:induction false} StripPadded(x: string, y: string)
    requires x == [] || (!IsSpace(x[0]) && !IsSpace(x[|x| - 1]))
    requires AllSpace(y)
    ensures Strip(x + y) == x
  {
    TrimmedPadded(x, y);
    if x == [] {
      assert x + y == y;
      assert SkipSpace(y, 0) == |y|;
    } else {
      StripFromNonSpace(x + y);
      assert (x + y)[..|x|] == x;
    }
  }

  /** ASCII-only lower-casing (str.lower() on the characters the core compares). */
  function LowerAscii(c: char): char
  {
    if 'A' <= c <= 'Z' then (c as int + 32) as char else c
  }

  // ---------------------------------------------------------------------
  // str.replace

  predicate OccursAt(s: string, w: string, k: int)
  {
    0 <= k && k + |w| <= |s| && s[k..k + |w|] == w
  }

  predicate Contains(s: string, w: string)
  {
    exists k :: 0 <= k <= |s| - |w| && OccursAt(s, w, k)
  }

  predicate StartsWith(s: string, w: string)
  {
    |w| <= |s| && s[..|w|] == w
  }

  /** A text c + r starts with w exactly when w starts with c and r starts
      with the rest of w. */
  lemma StartsWithCons(c: char, r: string, w: string)
    requires |w| > 0
    ensures StartsWith([c] + r, w) <==> w[0] == c && StartsWith(r, w[1..])
  {
    if StartsWith([c] + r, w) {
      assert r[..|w| - 1] == ([c] + r)[1..|w|];
      assert w[0] == ([c] + r)[..|w|][0];
    }
    if w[0] == c && StartsWith(r, w[1..]) {
      assert ([c] + r)[..|w|] == [c] + r[..|w| - 1];
      assert w == [w[0]] + w[1..];
    }
  }

  lemma StartsWithAt(u: string, w: string, j: nat)
    requires j < |w|
    ensures StartsWith(u, w) ==> u[j] == w[j]
  {
    if StartsWith(u, w) {
      assert u[j] == u[..|w|][j];
    }
  }

  /** Past a prefix x, what remains of w must follow. */
  lemma StartsWithDrop(x: string, y: string, w: string)
    requires |x| <= |w|
    ensures StartsWith(x + y, w) ==> StartsWith(y, w[|x|..])
  {
    if StartsWith(x + y, w) {
      assert y[..|w| - |x|] == (x + y)[..|w|][|x|..];
    }
  }

  lemma StartsWithShorter(u: string, w: string, m: nat)
    requires m <= |w|
    ensures StartsWith(u, w) ==> StartsWith(u, w[..m])
  {
    if StartsWith(u, w) {
      assert u[..m] == u[..|w|][..m];
    }
  }

  /** A prefix that ends inside x occurs in x. */
  lemma StartsWithInside(x: string, y: string, k: nat, w: string)
    requires k + |w| <= |x|
    ensures StartsWith(x[k..] + y, w) ==> OccursAt(x, w, k)
  {
    if StartsWith(x[k..] + y, w) {
      assert x[k..k + |w|] == (x[k..] + y)[..|w|];
    }
  }

  /** An occurrence inside an occurrence is an occurrence. */
  lemma OccursTrans(x: string, p: string, w: string, k: nat, a: nat)
    requires OccursAt(x, p, k) && OccursAt(p, w, a)
    ensures OccursAt(x, w, k + a)
  {
    SliceOfSlice(x, k, k + |p|, a, a + |w|);
  }

  /** A text found in a slice of s is found in s. */
  lemma {:induction false} ContainsSlice(s: string, a: nat, b: nat, w: string)
    requires a <= b <= |s|
    ensures Contains(s[a..b], w) ==> Contains(s, w)
  {
    if Contains(s[a..b], w) {
      var t := s[a..b];
      var k :| 0 <= k <= |t| - |w| && OccursAt(t, w, k);
      forall i | 0 <= i < |w| ensures s[a + k..a + k + |w|][i] == w[i] {
        assert t[k..k + |w|][i] == w[i];
      }
      assert OccursAt(s, w, a + k);
    }
  }

  /** Python's s.replace(pat, rep) for a non-empty pattern: every occurrence,
      found leftmost first and without overlap, is replaced by rep. */
  function ReplaceAll(s: string, pat: string, rep: string): string
    requires |pat| > 0
    decreases |s|
  {
    if |s| < |pat| then s
    else if s[..|pat|] == pat then rep + ReplaceAll(s[|pat|..], pat, rep)
    else [s[0]] + ReplaceAll(s[1..], pat, rep)
  }

  /** Replacing a pattern that does not occur changes nothing. */
  lemma {:induction false} ReplaceAbsent(s: string, pat: string, rep: string)
    requires |pat| > 0 && !Contains(s, pat)
    ensures ReplaceAll(s, pat, rep) == s
    decreases |s|
  {
    if |s| >= |pat| {
      assert !OccursAt(s, pat, 0);
      forall k | OccursAt(s[1..], pat, k) ensures false {
        assert s[1..][k..k + |pat|] == s[k + 1..k + 1 + |pat|];
        assert OccursAt(s, pat, k + 1);
      }
      ReplaceAbsent(s[1..], pat, rep);
    }
  }

  /** A text absent from s is absent from every suffix of s. */
  lemma {:induction false} AbsentSuffix(s: string, n: nat, w: string)
    requires n <= |s| && !Contains(s, w)
    ensures !Contains(s[n..], w)
  {
    ContainsSlice(s, n, |s|, w);
    assert s[n..|s|] == s[n..];
  }

  /** One character in front of a text adds an occurrence only at the front. */
  lemma {:induction false} AbsentCons(c: char, r: string, w: string)
    requires !Contains(r, w) && !StartsWith([c] + r, w)
    ensures !Contains([c] + r, w)
  {
    var cr := [c] + r;
    forall k | 0 <= k <= |cr| - |w| ensures !OccursAt(cr, w, k) {
      if k == 0 {
        assert cr[..|w|] == cr[0..0 + |w|];
      } else {
        assert cr[k..k + |w|] == r[k - 1..k - 1 + |w|];
        assert !OccursAt(r, w, k - 1);
      }
    }
  }

  /** A text sharing no character with rep cannot occur where rep stands. */
  lemma {:induction false} AbsentAfterRep(rep: string, r: string, w: string)
    requires |w| > 0 && Disjoint(w, rep) && !Contains(r, w)
    ensures !Contains(rep + r, w)
  {
    var x := rep + r;
    forall k | 0 <= k <= |x| - |w| ensures !OccursAt(x, w, k) {
      if k < |rep| {
        assert x[k] == rep[k] && w[0] != rep[k];
      } else {
        assert x[k..k + |w|] == r[k - |rep|..k - |rep| + |w|];
        assert !OccursAt(r, w, k - |rep|);
      }
    }
  }

  /** Whatever the replacement output starts with, as long as that text shares
      no character with rep, was copied from the input. */
  lemma {:induction false} ReplacePrefixCopied(u: string, pat: string, rep: string, x: string)
    requires |pat| > 0 && |rep| > 0 && Disjoint(x, rep)
    ensures StartsWith(ReplaceAll(u, pat, rep), x) ==> StartsWith(u, x)
    decreases |u|
  {
    var r := ReplaceAll(u, pat, rep);
    if x == [] || |u| < |pat| {
    } else if u[..|pat|] == pat {
      assert r[0] == rep[0];
      assert x[0] != rep[0];
    } else {
      var r' := ReplaceAll(u[1..], pat, rep);
      assert r == [u[0]] + r';
      assert Disjoint(x[1..], rep);
      ReplacePrefixCopied(u[1..], pat, rep, x[1..]);
      StartsWithCons(u[0], r', x);
      StartsWithCons(u[0], u[1..], x);
      assert [u[0]] + u[1..] == u;
    }
  }

  /** The output of a copy step starts with w only if the input does, when the
      tail of w shares no character with rep. */
  lemma {:induction false} CopyStart(s: string, pat: string, rep: string, w: string)
    requires |pat| > 0 && |rep| > 0 && |s| > 0 && |w| > 0 && Disjoint(w[1..], rep)
    ensures StartsWith([s[0]] + ReplaceAll(s[1..], pat, rep), w) ==> StartsWith(s, w)
  {
    var r' := ReplaceAll(s[1..], pat, rep);
    ReplacePrefixCopied(s[1..], pat, rep, w[1..]);
    StartsWithCons(s[0], r', w);
    StartsWithCons(s[0], s[1..], w);
    assert [s[0]] + s[1..] == s;
  }

  /** A text w sharing no character with rep occurs in the output of a
      replacement only if it already occurred in the input. */
  lemma {:induction false} ReplaceKeepsAbsent(s: string, pat: string, rep: string, w: string)
    requires |pat| > 0 && |rep| > 0 && |w| > 0 && Disjoint(w, rep) && !Contains(s, w)
    ensures !Contains(ReplaceAll(s, pat, rep), w)
    decreases |s|
  {
    if |s| < |pat| {
    } else if s[..|pat|] == pat {
      AbsentSuffix(s, |pat|, w);
      ReplaceKeepsAbsent(s[|pat|..], pat, rep, w);
      AbsentAfterRep(rep, ReplaceAll(s[|pat|..], pat, rep), w);
    } else {
      AbsentSuffix(s, 1, w);
      ReplaceKeepsAbsent(s[1..], pat, rep, w);
      assert Disjoint(w[1..], rep);
      CopyStart(s, pat, rep, w);
      assert !OccursAt(s, w, 0);
      AbsentCons(s[0], ReplaceAll(s[1..], pat, rep), w);
    }
  }

  /** After a replacement by a text sharing no character with the pattern,
      the pattern no longer occurs. */
  lemma {:induction false} ReplaceRemovesAll(s: string, pat: string, rep: string)
    requires |pat| > 0 && |rep| > 0 && Disjoint(pat, rep)
    ensures !Contains(ReplaceAll(s, pat, rep), pat)
    decreases |s|
  {
    if |s| < |pat| {
    } else if s[..|pat|] == pat {
      ReplaceRemovesAll(s[|pat|..], pat, rep);
      AbsentAfterRep(rep, ReplaceAll(s[|pat|..], pat, rep), pat);
    } else {
      ReplaceRemovesAll(s[1..], pat, rep);
      assert Disjoint(pat[1..], rep);
      CopyStart(s, pat, rep, pat);
      AbsentCons(s[0], ReplaceAll(s[1..], pat, rep), pat);
    }
  }

  /** Replacement passes over a prefix X unchanged when no occurrence of the
      pattern starts inside X. */
  lemma {:induction false} ReplaceCopy(x: string, y: string, pat: string, rep: string)
    requires |pat| > 0
    requires forall k :: 0 <= k < |x| ==> !StartsWith(x[k..] + y, pat)
    ensures ReplaceAll(x + y, pat, rep) == x + ReplaceAll(y, pat, rep)
    decreases |x|
  {
    if x == [] {
      assert x + y == y;
    } else if |x + y| < |pat| {
    } else {
      var xy := x + y;
      assert x[0..] + y == xy;
      forall k | 0 <= k < |x[1..]| ensures !StartsWith(x[1..][k..] + y, pat) {
        assert x[1..][k..] == x[k + 1..];
      }
      ReplaceCopy(x[1..], y, pat, rep);
      assert xy[0] == x[0] && xy[1..] == x[1..] + y;
      assert ReplaceAll(xy, pat, rep) == [x[0]] + ReplaceAll(x[1..] + y, pat, rep);
      AppendAssoc([x[0]], x[1..], ReplaceAll(y, pat, rep));
      assert [x[0]] + x[1..] == x;
    }
  }

  /** A sequence is its first n elements followed by the rest. */
  lemma TakeDrop<T>(s: seq<T>, n: nat)
    requires n <= |s|
    ensures s[..n] + s[n..] == s
  {
  }

  /** The first b elements are the first a followed by those from a to b. */
  lemma TakeSplit<T>(s: seq<T>, a: nat, b: nat)
    requires a <= b <= |s|
    ensures s[..b] == s[..a] + s[a..b]
  {
  }

  /** A slice of x + y that lies inside y is the same slice of y. */
  lemma SliceRight<T>(x: seq<T>, y: seq<T>, a: nat, b: nat)
    requires a <= b <= |y|
    ensures (x + y)[|x| + a..|x| + b] == y[a..b]
  {
  }

  /** Dropping k after dropping p drops p + k. */
  lemma DropDrop<T>(s: seq<T>, p: nat, k: nat)
    requires p + k <= |s|
    ensures s[p..][k..] == s[p + k..]
  {
  }

  /** Concatenation regroups freely. */
  lemma AppendAssoc<T>(a: seq<T>, b: seq<T>, c: seq<T>)
    ensures a + (b + c) == (a + b) + c
  {
  }

  /** s.replace(c, rep) for a one-character pattern, character by character. */
  function MapChar(s: string, c: char, rep: string): string
    decreases |s|
  {
    if s == [] then [] else (if s[0] == c then rep else [s[0]]) + MapChar(s[1..], c, rep)
  }

  /** With a one-character pattern, str.replace maps each character on its own. */
  lemma {:induction false} ReplaceOneChar(s: string, c: char, rep: string)
    ensures ReplaceAll(s, [c], rep) == MapChar(s, c, rep)
    decreases |s|
  {
    if s != [] {
      ReplaceOneChar(s[1..], c, rep);
      assert s[..1] == [s[0]];
    }
  }

  lemma {:induction false} MapCharConcat(a: string, b: string, c: char, rep: string)
    ensures MapChar(a + b, c, rep) == MapChar(a, c, rep) + MapChar(b, c, rep)
    decreases |a|
  {
    if a == [] {
      assert a + b == b;
    } else {
      var head := if a[0] == c then rep else [a[0]];
      assert (a + b)[0] == a[0] && (a + b)[1..] == a[1..] + b;
      assert MapChar(a + b, c, rep) == head + MapChar(a[1..] + b, c, rep);
      MapCharConcat(a[1..], b, c, rep);
      assert MapChar(a, c, rep) == head + MapChar(a[1..], c, rep);
      AppendAssoc(head, MapChar(a[1..], c, rep), MapChar(b, c, rep));
    }
  }

  /** On one character, the mapping is that character's replacement. */
  lemma MapCharSingle(x: char, c: char, rep: string)
    ensures MapChar([x], c, rep) == if x == c then rep else [x]
  {
    assert [x][1..] == [];
  }

  lemma {:induction false} MapCharAbsent(s: string, c: char, rep: string)
    requires forall j :: 0 <= j < |s| ==> s[j] != c
    ensures MapChar(s, c, rep) == s
    decreases |s|
  {
    if s != [] {
      MapCharAbsent(s[1..], c, rep);
    }
  }

  // ---------------------------------------------------------------------
  // str(n) for a non-negative int

  function DigitChar(d: nat): (c: char)
    requires d < 10
    ensures IsDigit(c)
  {
    ('0' as int + d) as char
  }

  /** Decimal rendering of n, as Python's str(n) and f"{n}" give it. */
  function NatToString(n: nat): (r: string)
    ensures |r| > 0 && forall i :: 0 <= i < |r| ==> IsDigit(r[i])
    ensures n >= 10 ==> |r| >= 2
    decreases n
  {
    if n < 10 then [DigitChar(n)] else NatToString(n / 10) + [DigitChar(n % 10)]
  }

  /** Value of a string of decimal digits (Python's int(s) on such a string). */
  function DecimalValue(s: string): nat
    requires forall i :: 0 <= i < |s| ==> IsDigit(s[i])
    decreases |s|
  {
    if s == [] then 0
    else
      assert IsDigit(s[|s| - 1]);
      DecimalValue(s[..|s| - 1]) * 10 + (s[|s| - 1] as int - '0' as int)
  }

  /** Reading back the decimal rendering gives the number. */
  lemma {:induction false} DecimalRoundTrip(n: nat)
    ensures DecimalValue(NatToString(n)) == n
    decreases n
  {
    var r := NatToString(n);
    if n >= 10 {
      DecimalRoundTrip(n / 10);
      assert r[..|r| - 1] == NatToString(n / 10);
    }
  }

  /** Distinct numbers have distinct renderings. */
  lemma {:induction false} NatToStringInjective(a: nat, b: nat)
    requires NatToString(a) == NatToString(b)
    ensures a == b
  {
    DecimalRoundTrip(a);
    DecimalRoundTrip(b);
  }
}
