/** SENTENCE_END_RE = (?<=[.?!])\s+ (main.py:45): a run of whitespace right
    after a sentence-ending punctuation mark. Python's regex engine tries the
    positions of a string left to right; a match starts at the first position
    whose previous character is . ? or ! and which holds whitespace, and the
    greedy \s+ takes the whole whitespace run. The lookbehind only sees the
    string being searched, never text before it. */
module SentenceEnd {
  import opened Text

  predicate IsSentencePunct(c: char)
  {
    c == '.' || c == '?' || c == '!'
  }

  /** A match of the pattern can start at position i of s. */
  predicate BoundaryAt(s: string, i: int)
  {
    0 < i < |s| && IsSentencePunct(s[i - 1]) && IsSpace(s[i])
  }

  predicate NoBoundary(s: string)
  {
    forall i :: 0 <= i < |s| ==> !BoundaryAt(s, i)
  }

  /** A match: the slice s[lo..hi]. */
  datatype Span = Span(lo: nat, hi: nat)

  /** The matches re.finditer reports when it scans s from position p, in order. */
  function MatchesFrom(s: string, p: nat): seq<Span>
    requires p <= |s|
    decreases |s| - p
  {
    if p == |s| then []
    else if BoundaryAt(s, p) then [Span(p, SkipSpace(s, p))] + MatchesFrom(s, SkipSpace(s, p))
    else MatchesFrom(s, p + 1)
  }

  /** m is a match of the pattern that lies in s[p..]: it starts at a
      boundary and takes the whole whitespace run. */
  predicate MatchAt(s: string, p: nat, m: Span)
  {
    p <= m.lo < m.hi <= |s| && BoundaryAt(s, m.lo) && m.hi == SkipSpace(s, m.lo)
  }

  /** Every reported match is a real one: it lies in s[p..], starts at a
      boundary and takes the whole whitespace run. */
  lemma {:induction false} MatchesSound(s: string, p: nat)
    requires p <= |s|
    ensures forall k :: 0 <= k < |MatchesFrom(s, p)| ==> MatchAt(s, p, MatchesFrom(s, p)[k])
    decreases |s| - p
  {
    if p < |s| {
      if BoundaryAt(s, p) {
        var e := SkipSpace(s, p);
        assert e == SkipSpace(s, p + 1) >= p + 1;
        MatchesSound(s, e);
        var ms := MatchesFrom(s, p);
        var tail := MatchesFrom(s, e);
        assert ms == [Span(p, e)] + tail;
        forall k | 0 <= k < |ms| ensures MatchAt(s, p, ms[k]) {
          if k > 0 {
            assert ms[k] == tail[k - 1];
          }
        }
      } else {
        MatchesSound(s, p + 1);
        assert MatchesFrom(s, p) == MatchesFrom(s, p + 1);
      }
    }
  }

  /** The matches come in order and do not overlap. */
  lemma {:induction false} MatchesOrdered(s: string, p: nat)
    requires p <= |s|
    ensures forall k, l :: 0 <= k < l < |MatchesFrom(s, p)| ==> MatchesFrom(s, p)[k].hi <= MatchesFrom(s, p)[l].lo
    decreases |s| - p
  {
    if p < |s| {
      if BoundaryAt(s, p) {
        var e := SkipSpace(s, p);
        MatchesOrdered(s, e);
        MatchesSound(s, e);
        var ms := MatchesFrom(s, p);
        var tail := MatchesFrom(s, e);
        assert ms == [Span(p, e)] + tail;
        forall k, l | 0 <= k < l < |ms| ensures ms[k].hi <= ms[l].lo {
          assert ms[l] == tail[l - 1] && MatchAt(s, e, tail[l - 1]);
          if k > 0 {
            assert ms[k] == tail[k - 1] && tail[k - 1].hi <= tail[l - 1].lo;
          }
        }
      } else {
        MatchesOrdered(s, p + 1);
        assert MatchesFrom(s, p) == MatchesFrom(s, p + 1);
      }
    }
  }

  /** No match starts inside a whitespace run or right after it: the lookbehind sees whitespace. */
  lemma {:induction false} NoBoundaryInRun(s: string, p: nat)
    requires p <= |s|
    ensures forall q :: p < q <= SkipSpace(s, p) ==> !BoundaryAt(s, q)
  {
    var e := SkipSpace(s, p);
    forall q | p < q <= e ensures !BoundaryAt(s, q) {
      assert s[p..e][q - 1 - p] == s[q - 1];
    }
  }

  /** finditer misses no match: every position where the pattern can start
      at or after p begins one of the reported matches. */
  lemma {:induction false} MatchesComplete(s: string, p: nat, q: nat)
    requires p <= q < |s| && BoundaryAt(s, q)
    ensures exists k :: 0 <= k < |MatchesFrom(s, p)| && MatchesFrom(s, p)[k].lo == q
    decreases |s| - p
  {
    var ms := MatchesFrom(s, p);
    if q == p {
      assert ms[0].lo == q;
    } else if BoundaryAt(s, p) {
      var e := SkipSpace(s, p);
      NoBoundaryInRun(s, p);
      assert e < q;
      MatchesComplete(s, e, q);
      var k :| 0 <= k < |MatchesFrom(s, e)| && MatchesFrom(s, e)[k].lo == q;
      assert ms[k + 1].lo == q;
    } else {
      MatchesComplete(s, p + 1, q);
    }
  }

  /** finditer finds nothing exactly when the text has no sentence boundary,
      and its last match starts at the last boundary. */
  lemma {:induction false} LastMatch(s: string)
    ensures var ms := MatchesFrom(s, 0);
      (|ms| == 0 <==> NoBoundary(s))
      && (|ms| > 0 ==> forall q :: ms[|ms| - 1].lo < q ==> !BoundaryAt(s, q))
  {
    var ms := MatchesFrom(s, 0);
    MatchesSound(s, 0);
    MatchesOrdered(s, 0);
    if !NoBoundary(s) {
      var q :| 0 <= q < |s| && BoundaryAt(s, q);
      MatchesComplete(s, 0, q);
    }
    if |ms| > 0 {
      var last := ms[|ms| - 1].lo;
      forall q | last < q ensures !BoundaryAt(s, q) {
        if BoundaryAt(s, q) {
          MatchesComplete(s, 0, q);
        }
      }
    }
  }

  /** re.sub with pattern SENTENCE_END_RE and replacement rep, scanning s from p. */
  function SubFrom(s: string, rep: string, p: nat): string
    requires p <= |s|
    decreases |s| - p
  {
    if p == |s| then []
    else if BoundaryAt(s, p) then rep + SubFrom(s, rep, SkipSpace(s, p))
    else [s[p]] + SubFrom(s, rep, p + 1)
  }

  /** Spans inside s[p..], in order and without overlap. */
  predicate SpansIn(s: string, p: nat, ms: seq<Span>)
    decreases |ms|
  {
    if ms == [] then p <= |s|
    else p <= ms[0].lo <= ms[0].hi <= |s| && SpansIn(s, ms[0].hi, ms[1..])
  }

  /** s[p..] with every span replaced by rep. */
  function Splice(s: string, p: nat, ms: seq<Span>, rep: string): string
    requires SpansIn(s, p, ms)
    decreases |ms|
  {
    if ms == [] then s[p..]
    else s[p..ms[0].lo] + rep + Splice(s, ms[0].hi, ms[1..], rep)
  }

  lemma {:induction false} SpliceStep(s: string, p: nat, ms: seq<Span>, rep: string)
    requires p < |s| && SpansIn(s, p + 1, ms)
    ensures SpansIn(s, p, ms) && Splice(s, p, ms, rep) == [s[p]] + Splice(s, p + 1, ms, rep)
  {
    if ms == [] {
      assert s[p..] == [s[p]] + s[p + 1..];
    } else {
      var lo := ms[0].lo;
      var tail := rep + Splice(s, ms[0].hi, ms[1..], rep);
      assert s[p..lo] == [s[p]] + s[p + 1..lo];
      assert Splice(s, p, ms, rep) == s[p..lo] + tail;
      assert Splice(s, p + 1, ms, rep) == s[p + 1..lo] + tail;
    }
  }

  lemma {:induction false} SpliceMatch(s: string, p: nat, e: nat, ms: seq<Span>, rep: string)
    requires p <= e <= |s| && SpansIn(s, e, ms)
    ensures SpansIn(s, p, [Span(p, e)] + ms)
    ensures Splice(s, p, [Span(p, e)] + ms, rep) == rep + Splice(s, e, ms, rep)
  {
    var ms' := [Span(p, e)] + ms;
    assert ms'[1..] == ms;
    assert s[p..p] == [];
  }

  lemma {:induction false} MatchesAreSpans(s: string, p: nat)
    requires p <= |s|
    ensures SpansIn(s, p, MatchesFrom(s, p))
    decreases |s| - p
  {
    if p < |s| {
      if BoundaryAt(s, p) {
        var e := SkipSpace(s, p);
        MatchesAreSpans(s, e);
        assert MatchesFrom(s, p)[1..] == MatchesFrom(s, e);
      } else {
        MatchesAreSpans(s, p + 1);
      }
    }
  }

  /** re.sub replaces exactly the matches re.finditer reports and copies
      the rest of the text. */
  lemma {:induction false} SubIsSplice(s: string, rep: string, p: nat)
    requires p <= |s|
    ensures SpansIn(s, p, MatchesFrom(s, p))
    ensures SubFrom(s, rep, p) == Splice(s, p, MatchesFrom(s, p), rep)
    decreases |s| - p
  {
    MatchesAreSpans(s, p);
    if p == |s| {
    } else if BoundaryAt(s, p) {
      var e := SkipSpace(s, p);
      SubIsSplice(s, rep, e);
      MatchesAreSpans(s, e);
      SpliceMatch(s, p, e, MatchesFrom(s, e), rep);
    } else {
      SubIsSplice(s, rep, p + 1);
      SpliceStep(s, p, MatchesFrom(s, p + 1), rep);
    }
  }

  /** Text without a sentence boundary passes through re.sub unchanged. */
  lemma {:induction false} SubNoBoundary(s: string, rep: string, p: nat)
    requires p <= |s| && NoBoundary(s)
    ensures SubFrom(s, rep, p) == s[p..]
    decreases |s| - p
  {
    if p < |s| {
      SubNoBoundary(s, rep, p + 1);
      assert s[p..] == [s[p]] + s[p + 1..];
    }
  }

  /** The first character re.sub emits from position p. */
  lemma {:induction false} SubHead(s: string, rep: string, p: nat)
    requires p < |s| && |rep| > 0
    ensures |SubFrom(s, rep, p)| > 0
    ensures SubFrom(s, rep, p)[0] == if BoundaryAt(s, p) then rep[0] else s[p]
  {
  }

  /** A replacement that starts with a non-space character and holds no
      sentence punctuation leaves no sentence boundary behind. */
  lemma {:induction false} SubLeavesNoBoundary(s: string, rep: string, p: nat)
    requires p <= |s| && |rep| > 0 && !IsSpace(rep[0])
    requires forall j :: 0 <= j < |rep| ==> !IsSentencePunct(rep[j])
    ensures NoBoundary(SubFrom(s, rep, p))
    decreases |s| - p
  {
    var out := SubFrom(s, rep, p);
    if p == |s| {
    } else if BoundaryAt(s, p) {
      var e := SkipSpace(s, p);
      var rest := SubFrom(s, rep, e);
      SubLeavesNoBoundary(s, rep, e);
      forall i ensures !BoundaryAt(out, i) {
        if 0 < i <= |rep| && i < |out| {
          assert out[i - 1] == rep[i - 1];
        } else if |rep| < i < |out| {
          assert out[i - 1] == rest[i - 1 - |rep|] && out[i] == rest[i - |rep|];
          assert !BoundaryAt(rest, i - |rep|);
        }
      }
    } else {
      var rest := SubFrom(s, rep, p + 1);
      SubLeavesNoBoundary(s, rep, p + 1);
      forall i ensures !BoundaryAt(out, i) {
        if i == 1 && i < |out| {
          SubHead(s, rep, p + 1);
          assert out[1] == rest[0];
          if !BoundaryAt(s, p + 1) {
            assert out[0] == s[p] && out[1] == s[p + 1];
          }
        } else if 1 < i < |out| {
          assert out[i - 1] == rest[i - 2] && out[i] == rest[i - 1];
          assert !BoundaryAt(rest, i - 1);
        }
      }
    }
  }

  /** Whatever re.sub's output starts with, if it shares no character with
      rep, was copied from the input. */
  lemma {:induction false} SubPrefixCopied(s: string, rep: string, p: nat, x: string)
    requires p <= |s| && |rep| > 0 && Disjoint(x, rep)
    ensures StartsWith(SubFrom(s, rep, p), x) ==> StartsWith(s[p..], x)
    decreases |s| - p
  {
    var out := SubFrom(s, rep, p);
    if x == [] || p == |s| {
    } else if BoundaryAt(s, p) {
      assert out[0] == rep[0];
      assert x[0] != rep[0];
    } else {
      var rest := SubFrom(s, rep, p + 1);
      assert out == [s[p]] + rest;
      assert Disjoint(x[1..], rep);
      SubPrefixCopied(s, rep, p + 1, x[1..]);
      if StartsWith(out, x) {
        assert rest[..|x| - 1] == out[1..|x|] == x[1..];
        assert s[p..][..|x|] == [s[p]] + s[p + 1..][..|x| - 1];
      }
    }
  }

  /** A copy step's output starts with w only if the input does, when the
      tail of w was copied. */
  lemma {:induction false} SubCopyStart(s: string, rep: string, p: nat, w: string)
    requires p < |s| && |w| > 0
    requires StartsWith(SubFrom(s, rep, p + 1), w[1..]) ==> StartsWith(s[p + 1..], w[1..])
    ensures StartsWith([s[p]] + SubFrom(s, rep, p + 1), w) ==> StartsWith(s[p..], w)
  {
    var rest := SubFrom(s, rep, p + 1);
    if StartsWith([s[p]] + rest, w) {
      assert rest[..|w| - 1] == ([s[p]] + rest)[1..|w|] == w[1..];
      assert s[p..][..|w|] == [s[p]] + s[p + 1..][..|w| - 1];
    }
  }

  /** A text sharing no character with rep occurs in re.sub's output only if
      it occurred in the input. */
  lemma {:induction false} SubKeepsAbsent(s: string, rep: string, p: nat, w: string)
    requires p <= |s| && |rep| > 0 && |w| > 0 && Disjoint(w, rep) && !Contains(s[p..], w)
    ensures !Contains(SubFrom(s, rep, p), w)
    decreases |s| - p
  {
    if p == |s| {
    } else if BoundaryAt(s, p) {
      var e := SkipSpace(s, p);
      AbsentSuffix(s[p..], e - p, w);
      assert s[p..][e - p..] == s[e..];
      SubKeepsAbsent(s, rep, e, w);
      AbsentAfterRep(rep, SubFrom(s, rep, e), w);
    } else {
      var rest := SubFrom(s, rep, p + 1);
      AbsentSuffix(s[p..], 1, w);
      assert s[p..][1..] == s[p + 1..];
      SubKeepsAbsent(s, rep, p + 1, w);
      assert Disjoint(w[1..], rep);
      SubPrefixCopied(s, rep, p + 1, w[1..]);
      SubCopyStart(s, rep, p, w);
      assert !OccursAt(s[p..], w, 0);
      AbsentCons(s[p], rest, w);
    }
  }
}
