/** split_text (main.py:60-86): the stripped text is cut into chunks of at
    most maxChars characters, each cut placed after the last sentence
    boundary of the current window when there is one, otherwise at the end
    of the window; whitespace between chunks is skipped. */
module Chunker {
  import opened Text
  import opened SentenceEnd

  function Min(a: nat, b: nat): nat
  {
    if a <= b then a else b
  }

  /** How far one window advances: to the end of the last SENTENCE_END_RE
      match in it, or over the whole window when it has none (hard cut). */
  function WindowAdvance(w: string): (adv: nat)
    requires |w| > 0
    ensures 0 < adv <= |w|
  {
    var ms := MatchesFrom(w, 0);
    MatchesSound(w, 0);
    if |ms| > 0 then ms[|ms| - 1].hi else |w|
  }

  /** A prefix of a text without sentence boundary has none either. */
  lemma {:induction false} NoBoundaryPrefix(w: string, n: nat)
    requires n <= |w| && NoBoundary(w)
    ensures NoBoundary(w[..n])
  {
    forall i | 0 <= i < n ensures !BoundaryAt(w[..n], i) {
      assert !BoundaryAt(w, i);
    }
  }

  /** The chunk cut from a window: the stripped text up to the advance. */
  function CutOf(w: string): string
    requires |w| > 0
  {
    Strip(w[..WindowAdvance(w)])
  }

  /** Cutting a window that starts with a non-space character: the chunk is
      a non-empty prefix of the window followed only by whitespace up to
      the advance. */
  lemma {:induction false} CutCommon(w: string)
    requires |w| > 0 && !IsSpace(w[0])
    ensures 0 < |CutOf(w)| <= WindowAdvance(w) && CutOf(w) == w[..|CutOf(w)|]
    ensures AllSpace(w[|CutOf(w)|..WindowAdvance(w)])
  {
    var adv := WindowAdvance(w);
    var x := w[..adv];
    assert x[0] == w[0];
    StripPrefix(x);
    var c := Strip(x);
    assert x[..|c|] == w[..|c|];
    assert x[|c|..] == w[|c|..adv];
  }
  /** A window without sentence boundary is taken whole (the hard cut). */
  lemma {:induction false} CutHard(w: string)
    requires |w| > 0 && !IsSpace(w[0]) && NoBoundary(w)
    ensures WindowAdvance(w) == |w| && NoBoundary(CutOf(w))
  {
    LastMatch(w);
    CutCommon(w);
    NoBoundaryPrefix(w, |CutOf(w)|);
  }
  /** Whichever rule applies, the chunk is a non-empty prefix of the window,
      without surrounding whitespace, that ends a sentence or holds no
      sentence boundary. */
  lemma {:induction false} CutShape(w: string)
    requires |w| > 0 && !IsSpace(w[0])
    ensures 0 < |CutOf(w)| <= WindowAdvance(w) && CutOf(w) == w[..|CutOf(w)|]
    ensures AllSpace(w[|CutOf(w)|..WindowAdvance(w)]) && Strip(CutOf(w)) == CutOf(w)
    ensures IsSentencePunct(CutOf(w)[|CutOf(w)| - 1]) || NoBoundary(CutOf(w))
  {
    CutCommon(w);
    if NoBoundary(w) {
      CutHard(w);
    } else {
      CutSentence(w);
    }
    StripStripped(CutOf(w));
  }

  /** A window with a sentence boundary is cut exactly at its last boundary,
      right after the punctuation mark. */
  lemma {:induction false} CutSentence(w: string)
    requires |w| > 0 && !IsSpace(w[0]) && !NoBoundary(w)
    ensures 0 < |CutOf(w)| && BoundaryAt(w, |CutOf(w)|) && IsSentencePunct(CutOf(w)[|CutOf(w)| - 1])
    ensures forall q :: |CutOf(w)| < q < |w| ==> !BoundaryAt(w, q)
  {
    var ms := MatchesFrom(w, 0);
    MatchesSound(w, 0);
    LastMatch(w);
    var a := ms[|ms| - 1].lo;
    var adv := ms[|ms| - 1].hi;
    assert adv == WindowAdvance(w);
    var x := w[..a];
    var y := w[a..adv];
    TakeSplit(w, a, adv);
    assert x[a - 1] == w[a - 1];
    assert AllSpace(y);
    StripPadded(x, y);
  }

  /** One cut of split_text: the chunk it appends and the whitespace it skips after it. */
  datatype Piece = Piece(chunk: string, gap: string)

  /** The window text[start:end] with end = min(start + maxChars, len(text)). */
  function Window(t: string, start: nat, m: nat): (w: string)
    requires 1 <= m && start < |t|
    ensures 0 < |w| <= m && start + |w| <= |t| && w == t[start..start + |w|]
  {
    t[start..Min(start + m, |t|)]
  }

  /** The chunk cut from the window at start: the stripped text up to the advance. */
  function ChunkAt(t: string, start: nat, m: nat): (c: string)
    requires 1 <= m && start < |t|
    ensures |c| <= WindowAdvance(Window(t, start, m))
  {
    CutOf(Window(t, start, m))
  }

  /** Where the next window starts: after the advance and the whitespace that follows it. */
  function NextStart(t: string, start: nat, m: nat): (n: nat)
    requires 1 <= m && start < |t|
    ensures start + WindowAdvance(Window(t, start, m)) <= n <= |t| && (n == |t| || !IsSpace(t[n]))
    ensures AllSpace(t[start + WindowAdvance(Window(t, start, m))..n])
  {
    SkipSpace(t, start + WindowAdvance(Window(t, start, m)))
  }

  /** The piece cut at start: the chunk and the whitespace up to the next start. */
  function PieceAt(t: string, start: nat, m: nat): Piece
    requires 1 <= m && start < |t|
  {
    var chunk := ChunkAt(t, start, m);
    Piece(chunk, t[start + |chunk|..NextStart(t, start, m)])
  }

  /** The pieces split_text cuts from the stripped text t, from offset start on. */
  function PiecesFrom(t: string, start: nat, m: nat): seq<Piece>
    requires 1 <= m && start <= |t|
    requires start == |t| || !IsSpace(t[start])
    decreases |t| - start
  {
    if start == |t| then []
    else [PieceAt(t, start, m)] + PiecesFrom(t, NextStart(t, start, m), m)
  }

  function Chunks(ps: seq<Piece>): seq<string>
  {
    if ps == [] then [] else [ps[0].chunk] + Chunks(ps[1..])
  }

  /** The text the pieces came from: every chunk followed by its gap. */
  function Rebuild(ps: seq<Piece>): string
  {
    if ps == [] then [] else ps[0].chunk + ps[0].gap + Rebuild(ps[1..])
  }

  /** What every chunk of split_text looks like: 1 to m characters, no
      surrounding whitespace, and either it ends a sentence or it holds no
      sentence boundary (a hard cut). */
  predicate GoodChunk(c: string, m: nat)
  {
    0 < |c| <= m && Strip(c) == c && (IsSentencePunct(c[|c| - 1]) || NoBoundary(c))
  }

  /** The chunk cut at start is the text at start. */
  lemma {:induction false} ChunkAtPrefix(t: string, start: nat, m: nat)
    requires 1 <= m && start < |t| && !IsSpace(t[start])
    ensures var c := ChunkAt(t, start, m); start + |c| <= |t| && c == t[start..start + |c|]
  {
    var w := Window(t, start, m);
    var c := ChunkAt(t, start, m);
    assert w[0] == t[start];
    CutCommon(w);
    SliceOfSlice(t, start, start + |w|, 0, |c|);
  }

  /** The chunk cut at start is a good chunk. */
  lemma {:induction false} ChunkGood(t: string, start: nat, m: nat)
    requires 1 <= m && start < |t| && !IsSpace(t[start])
    ensures GoodChunk(ChunkAt(t, start, m), m)
  {
    var w := Window(t, start, m);
    assert w[0] == t[start];
    CutShape(w);
  }

  /** The gap after the chunk cut at start is whitespace. */
  lemma {:induction false} GapSpace(t: string, start: nat, m: nat)
    requires 1 <= m && start < |t| && !IsSpace(t[start])
    ensures AllSpace(PieceAt(t, start, m).gap)
  {
    var w := Window(t, start, m);
    assert w[0] == t[start];
    CutCommon(w);
    GapOfCut(t, start, w, |ChunkAt(t, start, m)|, WindowAdvance(w), NextStart(t, start, m));
  }

  /** The text between the end of a chunk and the next start is whitespace:
      the rest of the window up to the advance, then the skipped run. */
  lemma GapOfCut(t: string, start: nat, w: string, k: nat, adv: nat, next: nat)
    requires start + |w| <= |t| && w == t[start..start + |w|]
    requires k <= adv <= |w| && AllSpace(w[k..adv])
    requires start + adv <= next <= |t| && AllSpace(t[start + adv..next])
    ensures AllSpace(t[start + k..next])
  {
    SliceOfSlice(t, start, start + |w|, k, adv);
    AllSpaceJoin(t, start + k, start + adv, next);
  }

  /** A piece is the text from its start to the next start. */
  lemma {:induction false} PieceSpan(t: string, start: nat, m: nat)
    requires 1 <= m && start < |t| && !IsSpace(t[start])
    ensures PieceAt(t, start, m).chunk + PieceAt(t, start, m).gap == t[start..NextStart(t, start, m)]
  {
    var c := ChunkAt(t, start, m);
    ChunkAtPrefix(t, start, m);
    SliceSplit(t, start, start + |c|, NextStart(t, start, m));
  }

  /** Putting the pieces back together gives the text they were cut from. */
  lemma {:induction false} PiecesRebuild(t: string, start: nat, m: nat)
    requires 1 <= m && start <= |t| && (start == |t| || !IsSpace(t[start]))
    ensures Rebuild(PiecesFrom(t, start, m)) == t[start..]
    decreases |t| - start
  {
    var ps := PiecesFrom(t, start, m);
    if start < |t| {
      var next := NextStart(t, start, m);
      var p := PieceAt(t, start, m);
      assert ps[0] == p && ps[1..] == PiecesFrom(t, next, m);
      PiecesRebuild(t, next, m);
      PieceSpan(t, start, m);
      SuffixSplit(t, start, next);
    }
  }

  /** A piece of split_text: a good chunk followed by whitespace. */
  predicate GoodPiece(p: Piece, m: nat)
  {
    GoodChunk(p.chunk, m) && AllSpace(p.gap)
  }

  /** Every piece holds a good chunk followed by whitespace, and there are
      pieces as long as text is left. */
  lemma {:induction false} PiecesGood(t: string, start: nat, m: nat)
    requires 1 <= m && start <= |t| && (start == |t| || !IsSpace(t[start]))
    ensures |PiecesFrom(t, start, m)| == 0 <==> start == |t|
    ensures forall i :: 0 <= i < |PiecesFrom(t, start, m)| ==> GoodPiece(PiecesFrom(t, start, m)[i], m)
    decreases |t| - start
  {
    var ps := PiecesFrom(t, start, m);
    if start < |t| {
      ChunkGood(t, start, m);
      GapSpace(t, start, m);
      var next := NextStart(t, start, m);
      var rest := PiecesFrom(t, next, m);
      assert ps[0] == PieceAt(t, start, m) && ps[1..] == rest;
      PiecesGood(t, next, m);
      forall i | 0 <= i < |ps| ensures GoodPiece(ps[i], m) {
        if i > 0 {
          assert ps[i] == rest[i - 1];
        }
      }
    }
  }

  /** The whitespace skip stops at the first non-space character. */
  lemma {:induction false} SkipSpaceStops(s: string, p: nat, k: nat)
    requires p <= k < |s| && !IsSpace(s[k])
    ensures SkipSpace(s, p) <= k
    decreases |s| - p
  {
    if p < |s| && IsSpace(s[p]) {
      SkipSpaceStops(s, p + 1, k);
    }
  }

  /** A window that ends before the text does, in a text whose last character
      is not a space, leaves something for the next window. */
  lemma {:induction false} NextStartInside(t: string, start: nat, m: nat)
    requires 1 <= m && start + m < |t| && !IsSpace(t[|t| - 1])
    ensures NextStart(t, start, m) < |t|
  {
    SkipSpaceStops(t, start + WindowAdvance(Window(t, start, m)), |t| - 1);
  }

  /** A stripped text longer than m is cut into at least two pieces. */
  lemma {:induction false} PiecesTwo(t: string, m: nat)
    requires 1 <= m < |t| && !IsSpace(t[0]) && !IsSpace(t[|t| - 1])
    ensures |PiecesFrom(t, 0, m)| >= 2
  {
    var next := NextStart(t, 0, m);
    NextStartInside(t, 0, m);
    assert PiecesFrom(t, 0, m) == [PieceAt(t, 0, m)] + PiecesFrom(t, next, m);
    assert |PiecesFrom(t, next, m)| >= 1;
  }

  /** split_text as a function of its arguments. */
  function SplitSpec(text: string, maxChars: nat): seq<string>
    requires 1 <= maxChars || |Strip(text)| <= maxChars
  {
    var t := Strip(text);
    if |t| <= maxChars then [t] else Chunks(PiecesFrom(t, 0, maxChars))
  }

  lemma {:induction false} ChunksOf(ps: seq<Piece>)
    ensures |Chunks(ps)| == |ps| && forall i :: 0 <= i < |ps| ==> Chunks(ps)[i] == ps[i].chunk
  {
    if ps != [] {
      ChunksOf(ps[1..]);
    }
  }

  /** A stripped text longer than m is cut into at least two good pieces
      which give the text back when put together. */
  lemma {:induction false} PiecesCover(t: string, m: nat)
    requires 1 <= m < |t| && !IsSpace(t[0]) && !IsSpace(t[|t| - 1])
    ensures Rebuild(PiecesFrom(t, 0, m)) == t && |PiecesFrom(t, 0, m)| >= 2
    ensures forall i :: 0 <= i < |PiecesFrom(t, 0, m)| ==> GoodPiece(PiecesFrom(t, 0, m)[i], m)
  {
    PiecesRebuild(t, 0, m);
    PiecesGood(t, 0, m);
    PiecesTwo(t, m);
    assert t[0..] == t;
  }

  /** What split_text promises: a short text is one chunk; a long one is cut
      into at least two pieces, each a good chunk followed by whitespace,
      which give the stripped text back when put together. */
  lemma {:induction false} SplitSpecCovers(text: string, maxChars: nat)
    requires 1 <= maxChars
    ensures |Strip(text)| <= maxChars ==> SplitSpec(text, maxChars) == [Strip(text)]
    ensures |Strip(text)| > maxChars ==>
      SplitSpec(text, maxChars) == Chunks(PiecesFrom(Strip(text), 0, maxChars))
      && Rebuild(PiecesFrom(Strip(text), 0, maxChars)) == Strip(text)
      && |PiecesFrom(Strip(text), 0, maxChars)| >= 2
      && forall i :: 0 <= i < |PiecesFrom(Strip(text), 0, maxChars)| ==>
           GoodPiece(PiecesFrom(Strip(text), 0, maxChars)[i], maxChars)
  {
    var t := Strip(text);
    if |t| > maxChars {
      PiecesCover(t, maxChars);
    }
  }

  /** Every chunk split_text returns is a good chunk. */
  lemma {:induction false} SplitSpecGood(text: string, maxChars: nat)
    requires 1 <= maxChars && |Strip(text)| > maxChars
    ensures forall i :: 0 <= i < |SplitSpec(text, maxChars)| ==> GoodChunk(SplitSpec(text, maxChars)[i], maxChars)
  {
    var t := Strip(text);
    var ps := PiecesFrom(t, 0, maxChars);
    PiecesCover(t, maxChars);
    ChunksOf(ps);
    forall i | 0 <= i < |Chunks(ps)| ensures GoodChunk(Chunks(ps)[i], maxChars) {
      assert GoodPiece(ps[i], maxChars);
    }
  }

  /** One turn of split_text's loop appends the chunk cut at start and moves on to the next start. */
  lemma {:induction false} ChunksStep(t: string, start: nat, m: nat, parts: seq<string>)
    requires 1 <= m && start < |t| && !IsSpace(t[start])
    ensures var next := NextStart(t, start, m);
      parts + Chunks(PiecesFrom(t, start, m)) == (parts + [ChunkAt(t, start, m)]) + Chunks(PiecesFrom(t, next, m))
  {
    var ps := PiecesFrom(t, start, m);
    var next := NextStart(t, start, m);
    assert ps[0] == PieceAt(t, start, m) && ps[1..] == PiecesFrom(t, next, m);
    assert Chunks(ps) == [ChunkAt(t, start, m)] + Chunks(PiecesFrom(t, next, m));
    AppendAssoc(parts, [ChunkAt(t, start, m)], Chunks(PiecesFrom(t, next, m)));
  }

  /** The inner loop of split_text: skip the whitespace between chunks. */
  method SkipWhitespace(t: string, from: nat) returns (q: nat)
    requires from <= |t|
    ensures q == SkipSpace(t, from)
  {
    q := from;
    while q < |t| && IsSpace(t[q])
      invariant from <= q <= |t| && SkipSpace(t, q) == SkipSpace(t, from)
      decreases |t| - q
    {
      q := q + 1;
    }
  }

  /** The body of split_text's loop before the whitespace skip: take the
      window at start, find its sentence-end matches, and cut after the last
      one (or take the whole window); the chunk is the stripped cut. */
  method CutWindow(t: string, start: nat, maxChars: nat) returns (chunk: string, advance: nat)
    requires 1 <= maxChars && start < |t|
    ensures chunk == ChunkAt(t, start, maxChars)
    ensures advance == WindowAdvance(Window(t, start, maxChars))
  {
    var end := Min(start + maxChars, |t|);
    var segment := t[start..end];
    var matches := MatchesFrom(segment, 0);
    MatchesSound(segment, 0);
    if |matches| > 0 {
      var splitAt := matches[|matches| - 1].hi;
      chunk := Strip(segment[..splitAt]);
      advance := splitAt;
    } else {
      assert segment[..|segment|] == segment;
      chunk := Strip(segment);
      advance := |segment|;
    }
  }

  /** One iteration of split_text's loop: the chunk it appends and where the next window starts. */
  method NextCut(t: string, start: nat, maxChars: nat) returns (chunk: string, next: nat)
    requires 1 <= maxChars && start < |t|
    ensures chunk == ChunkAt(t, start, maxChars) && next == NextStart(t, start, maxChars)
  {
    var advance;
    chunk, advance := CutWindow(t, start, maxChars);
    next := SkipWhitespace(t, start + advance);
  }

  /** split_text, loop for loop: cut a window, then skip the whitespace after the cut. */
  method SplitText(text: string, maxChars: nat) returns (parts: seq<string>)
    requires 1 <= maxChars || |Strip(text)| <= maxChars
    ensures parts == SplitSpec(text, maxChars)
  {
    var t := Strip(text);
    if |t| <= maxChars {
      return [t];
    }
    parts := [];
    var start := 0;
    ghost var all := Chunks(PiecesFrom(t, 0, maxChars));
    while start < |t|
      invariant start <= |t| && (start == |t| || !IsSpace(t[start]))
      invariant parts + Chunks(PiecesFrom(t, start, maxChars)) == all
      decreases |t| - start
    {
      ChunksStep(t, start, maxChars, parts);
      var chunk, next := NextCut(t, start, maxChars);
      parts := parts + [chunk];
      start := next;
    }
  }
}
