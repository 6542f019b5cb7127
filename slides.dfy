/** preprocess_slides (main.py:89-91) with SLIDE_RE (main.py:57): every run
    of slide markers "Slide <number>" (any letter case, optional whitespace
    around the number) becomes the pause token. The pattern is
    (?:Slide\s*\d+\s*){1,}: a unit is the word, optional whitespace, at
    least one digit and optional whitespace; a run is one or more units
    back to back. re.sub scans left to right; where a run starts it emits
    the token and resumes after the run, elsewhere it copies one character. */
module Slides {
  import opened Text

  /** The replacement text of preprocess_slides. */
  const PauseToken: string := "__SLIDE_PAUSE__"

  /** The word "slide" at q, ignoring the case of ASCII letters. */
  predicate SlideWordAt(s: string, q: nat)
  {
    q + 5 <= |s|
    && LowerAscii(s[q]) == 's' && LowerAscii(s[q + 1]) == 'l' && LowerAscii(s[q + 2]) == 'i'
    && LowerAscii(s[q + 3]) == 'd' && LowerAscii(s[q + 4]) == 'e'
  }

  /** A unit Slide\s*\d+\s* starts at q: the word, then after the
      whitespace that follows it, a digit. */
  predicate UnitAt(s: string, q: nat)
  {
    SlideWordAt(s, q) && SkipSpace(s, q + 5) < |s| && IsDigit(s[SkipSpace(s, q + 5)])
  }

  /** Where the unit starting at q ends: after its digits and the whitespace that follows them. */
  function UnitEnd(s: string, q: nat): (e: nat)
    requires UnitAt(s, q)
    ensures q + 6 <= e <= |s|
  {
    SkipSpace(s, SkipDigits(s, SkipSpace(s, q + 5)))
  }

  /** Where the run of units starting at q ends (q itself when no unit
      starts there): no further unit starts where it stops, so the whole
      run is consumed. */
  function RunEnd(s: string, q: nat): (e: nat)
    requires q <= |s|
    ensures q <= e <= |s| && (UnitAt(s, q) ==> q < e) && !UnitAt(s, e)
    decreases |s| - q
  {
    if UnitAt(s, q) then RunEnd(s, UnitEnd(s, q)) else q
  }

  /** SLIDE_RE.sub(PauseToken, s[p..]). */
  function SlidesFrom(s: string, p: nat): string
    requires p <= |s|
    decreases |s| - p
  {
    if p == |s| then []
    else if UnitAt(s, p) then PauseToken + SlidesFrom(s, RunEnd(s, p))
    else [s[p]] + SlidesFrom(s, p + 1)
  }

  /** preprocess_slides. */
  function PreprocessSlides(text: string): string
  {
    SlidesFrom(text, 0)
  }

  /** No slide marker starts anywhere in s. */
  predicate NoMarker(s: string)
  {
    forall q :: 0 <= q < |s| ==> !UnitAt(s, q)
  }

  /** Text without slide markers passes through unchanged. */
  lemma {:induction false} SlidesUnchanged(s: string, p: nat)
    requires p <= |s| && NoMarker(s)
    ensures SlidesFrom(s, p) == s[p..]
    decreases |s| - p
  {
    if p < |s| {
      SlidesUnchanged(s, p + 1);
      assert s[p..] == [s[p]] + s[p + 1..];
    }
  }

  /** What the output starts with, if it holds no underscore, was copied from
      the input: every token begins with one. */
  lemma {:induction false} SlidesPrefixCopied(s: string, p: nat, x: string)
    requires p <= |s| && forall j :: 0 <= j < |x| ==> x[j] != '_'
    ensures StartsWith(SlidesFrom(s, p), x) ==> StartsWith(s[p..], x)
    decreases |s| - p
  {
    var out := SlidesFrom(s, p);
    if x == [] || p == |s| {
    } else if UnitAt(s, p) {
      assert out[0] == '_';
    } else {
      var rest := SlidesFrom(s, p + 1);
      assert out == [s[p]] + rest;
      SlidesPrefixCopied(s, p + 1, x[1..]);
      if StartsWith(out, x) {
        assert rest[..|x| - 1] == out[1..|x|] == x[1..];
        assert s[p..][..|x|] == [s[p]] + s[p + 1..][..|x| - 1];
      }
    }
  }

  /** The whitespace skip from a finds b when the characters in between are
      whitespace and the one at b is not. */
  lemma {:induction false} SkipSpaceExact(s: string, a: nat, b: nat)
    requires a <= b < |s| && !IsSpace(s[b])
    requires forall j :: a <= j < b ==> IsSpace(s[j])
    ensures SkipSpace(s, a) == b
    decreases b - a
  {
    if a < b {
      SkipSpaceExact(s, a + 1, b);
    }
  }

  /** The length of the part of a unit that decides whether it starts: the
      word, the whitespace and the first digit. */
  function UnitHead(s: string, q: nat): (n: nat)
    requires UnitAt(s, q)
    ensures 6 <= n && q + n <= |s|
  {
    SkipSpace(s, q + 5) + 1 - q
  }

  /** Every character of a unit's head is a letter, whitespace or a digit,
      none of them an underscore. */
  lemma {:induction false} UnitHeadPlain(s: string, q: nat)
    requires UnitAt(s, q)
    ensures forall j :: q <= j < q + UnitHead(s, q) ==> s[j] != '_'
  {
    var a := SkipSpace(s, q + 5);
    forall j | q <= j < q + UnitHead(s, q) ensures s[j] != '_' {
      if q + 5 <= j < a {
        assert s[q + 5..a][j - q - 5] == s[j];
      }
    }
  }

  /** A unit starts wherever the head of a unit is copied to. */
  lemma {:induction false} UnitCopied(u: string, k: nat, v: string, p: nat)
    requires UnitAt(u, k) && p + UnitHead(u, k) <= |v|
    requires v[p..p + UnitHead(u, k)] == u[k..k + UnitHead(u, k)]
    ensures UnitAt(v, p)
  {
    var n := UnitHead(u, k);
    var a := SkipSpace(u, k + 5);
    assert v[p] == v[p..p + n][0] && v[p + 1] == v[p..p + n][1] && v[p + 2] == v[p..p + n][2];
    assert v[p + 3] == v[p..p + n][3] && v[p + 4] == v[p..p + n][4];
    assert v[p + (a - k)] == v[p..p + n][a - k];
    forall j | p + 5 <= j < p + (a - k) ensures IsSpace(v[j]) {
      assert v[j] == v[p..p + n][j - p] == u[k + 5..a][j - p - 5];
    }
    SkipSpaceExact(v, p + 5, p + (a - k));
  }

  /** A copy step creates no unit at its front: if the output starts with a
      unit, so does the input. */
  lemma {:induction false} CopyUnit(s: string, p: nat)
    requires p < |s|
    ensures UnitAt([s[p]] + SlidesFrom(s, p + 1), 0) ==> UnitAt(s, p)
  {
    var rest := SlidesFrom(s, p + 1);
    var out := [s[p]] + rest;
    if UnitAt(out, 0) {
      var n := UnitHead(out, 0);
      UnitHeadPlain(out, 0);
      var x := out[1..n];
      assert forall j :: 0 <= j < |x| ==> x[j] == out[j + 1];
      SlidesPrefixCopied(s, p + 1, x);
      assert rest[..|x|] == x;
      assert s[p + 1..][..|x|] == x;
      assert s[p..p + n] == [s[p]] + s[p + 1..][..|x|];
      assert out[0..n] == [s[p]] + x;
      UnitCopied(out, 0, s, p);
    }
  }

  /** A unit of x + y that starts inside y is a unit of y. */
  lemma {:induction false} UnitShift(x: string, y: string, k: nat)
    requires k <= |y|
    ensures UnitAt(x + y, |x| + k) ==> UnitAt(y, k)
  {
    var xy := x + y;
    if UnitAt(xy, |x| + k) {
      var n := UnitHead(xy, |x| + k);
      SliceRight(x, y, k, k + n);
      UnitCopied(xy, |x| + k, y, k);
    }
  }

  /** No unit starts inside the pause token, whatever follows it. */
  lemma {:induction false} NoUnitInToken(y: string, k: nat)
    requires k < |PauseToken|
    ensures !UnitAt(PauseToken + y, k)
  {
    var t := PauseToken + y;
    assert t[k] == PauseToken[k];
    if k == 2 {
      assert t[7] == '_';
      SkipSpaceExact(t, 7, 7);
    } else if k == 11 {
      assert t[12] == 'E';
    }
  }

  /** A token in front of marker-free text leaves it marker-free. */
  lemma {:induction false} TokenStep(rest: string)
    requires NoMarker(rest)
    ensures NoMarker(PauseToken + rest)
  {
    forall q | 0 <= q < |PauseToken + rest| ensures !UnitAt(PauseToken + rest, q) {
      if q < |PauseToken| {
        NoUnitInToken(rest, q);
      } else {
        UnitShift(PauseToken, rest, q - |PauseToken|);
      }
    }
  }

  /** A copy step in front of marker-free output leaves it marker-free. */
  lemma {:induction false} CopyStep(s: string, p: nat)
    requires p < |s| && !UnitAt(s, p) && NoMarker(SlidesFrom(s, p + 1))
    ensures NoMarker([s[p]] + SlidesFrom(s, p + 1))
  {
    var rest := SlidesFrom(s, p + 1);
    CopyUnit(s, p);
    forall q | 0 <= q < |[s[p]] + rest| ensures !UnitAt([s[p]] + rest, q) {
      if q > 0 {
        UnitShift([s[p]], rest, q - 1);
      }
    }
  }

  /** After preprocessing no slide marker is left. */
  lemma {:induction false} SlidesLeaveNoMarker(s: string, p: nat)
    requires p <= |s|
    ensures NoMarker(SlidesFrom(s, p))
    decreases |s| - p
  {
    if p == |s| {
    } else if UnitAt(s, p) {
      SlidesLeaveNoMarker(s, RunEnd(s, p));
      TokenStep(SlidesFrom(s, RunEnd(s, p)));
    } else {
      SlidesLeaveNoMarker(s, p + 1);
      CopyStep(s, p);
    }
  }

  /** Preprocessing twice is preprocessing once. */
  lemma {:induction false} PreprocessIdempotent(s: string)
    ensures PreprocessSlides(PreprocessSlides(s)) == PreprocessSlides(s)
  {
    var out := PreprocessSlides(s);
    SlidesLeaveNoMarker(s, 0);
    SlidesUnchanged(out, 0);
    assert out[0..] == out;
  }
  /** The whitespace after a marker goes with it: "Slide 1 Hi" becomes the
      token directly followed by "Hi". */
  lemma SlideExample()
    ensures PreprocessSlides("Slide 1 Hi") == PauseToken + "Hi"
  {
    var s := "Slide 1 Hi";
    assert SkipSpace(s, 5) == 6;
    assert SkipDigits(s, 6) == 7;
    assert SkipSpace(s, 7) == 8;
    assert UnitEnd(s, 0) == 8;
    assert !UnitAt(s, 8) && !UnitAt(s, 9);
    assert RunEnd(s, 8) == 8;
    assert SlidesFrom(s, 10) == [];
    assert SlidesFrom(s, 8) == "Hi";
  }

  /** A marker "Slide", one space, one digit and one space, followed by a
      character that is not whitespace, is a unit of eight characters. */
  lemma ShortUnit(s: string, q: nat)
    requires q + 8 < |s| && s[q] == 'S' && s[q + 1] == 'l' && s[q + 2] == 'i' && s[q + 3] == 'd' && s[q + 4] == 'e'
    requires s[q + 5] == ' ' && IsDigit(s[q + 6]) && s[q + 7] == ' ' && !IsSpace(s[q + 8])
    ensures UnitAt(s, q) && UnitEnd(s, q) == q + 8
  {
    SkipSpaceExact(s, q + 5, q + 6);
    SkipDigitsExact(s, q + 6, q + 7);
    SkipSpaceExact(s, q + 7, q + 8);
  }

  /** The first marker of "Slide 1 Slide 2 intro" ends where the second starts. */
  lemma FirstMarker()
    ensures UnitAt("Slide 1 Slide 2 intro", 0) && UnitEnd("Slide 1 Slide 2 intro", 0) == 8
  {
    ShortUnit("Slide 1 Slide 2 intro", 0);
  }

  /** The second marker ends before "intro". */
  lemma SecondMarker()
    ensures UnitAt("Slide 1 Slide 2 intro", 8) && UnitEnd("Slide 1 Slide 2 intro", 8) == 16
  {
    ShortUnit("Slide 1 Slide 2 intro", 8);
  }

  /** The run of the two markers ends before "intro". */
  lemma TwoMarkerRun()
    ensures UnitAt("Slide 1 Slide 2 intro", 0) && RunEnd("Slide 1 Slide 2 intro", 0) == 16
  {
    var s := "Slide 1 Slide 2 intro";
    FirstMarker();
    SecondMarker();
    assert !UnitAt(s, 16);
    assert RunEnd(s, 16) == 16;
    assert RunEnd(s, 8) == 16;
  }

  /** After the run, "intro" holds no marker and is copied. */
  lemma TwoMarkerTail()
    ensures SlidesFrom("Slide 1 Slide 2 intro", 16) == "intro"
  {
    var s := "Slide 1 Slide 2 intro";
    assert !UnitAt(s, 16) && !UnitAt(s, 17);
    assert SlidesFrom(s, 21) == [];
  }

  /** Two markers back to back form one run and give a single pause token. */
  lemma SlideRunExample()
    ensures PreprocessSlides("Slide 1 Slide 2 intro") == PauseToken + "intro"
  {
    TwoMarkerRun();
    TwoMarkerTail();
  }
}
