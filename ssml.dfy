/** The SSML side of main.py: insert_sentence_breaks (main.py:112-113),
    escape_for_ssml (main.py:94-109) and prepare_ssml_for_chunk
    (main.py:116-126).

    escape_for_ssml works in three stages. It first replaces every break tag
    (the regex <break[^>]*?>: "<break" up to the first '>' after it) by a
    numbered placeholder __BREAK_<i>__ and stores the tag; it then escapes
    '&', '<' and '>' in what is left; finally it replaces placeholder i by
    tag i, for i = 0, 1, ... in turn. The intended result is the reference
    escaper EscapeRef below: every character outside a break tag escaped,
    every break tag kept verbatim. The code reaches that result whenever the
    input does not contain the text "BREAK_"; on an input that holds a
    placeholder-like text right after a tag the restore stage replaces text
    that is not a placeholder (EscapeStraddle). */
module Ssml {
  import opened Text
  import opened SentenceEnd
  import Slides

  // ---------------------------------------------------------------------
  // insert_sentence_breaks

  /** The break tag f'<break time="{ms}ms"/>'. */
  function BreakTag(ms: nat): string
  {
    "<break time=\"" + NatToString(ms) + "ms\"/>"
  }

  /** insert_sentence_breaks: every whitespace run after '.', '?' or '!' is
      replaced by a break tag and one space. */
  function InsertSentenceBreaks(s: string, pauseMs: nat): string
  {
    SubFrom(s, BreakTag(pauseMs) + " ", 0)
  }

  /** The break tag inserted after a sentence holds no sentence punctuation
      and does not start with whitespace. */
  lemma BreakTagPlain(ms: nat)
    ensures |BreakTag(ms) + " "| > 0 && !IsSpace((BreakTag(ms) + " ")[0])
    ensures forall j :: 0 <= j < |BreakTag(ms) + " "| ==> !IsSentencePunct((BreakTag(ms) + " ")[j])
    ensures forall j :: 0 <= j < |BreakTag(ms) + " "| ==> !('A' <= (BreakTag(ms) + " ")[j] <= 'Z') && (BreakTag(ms) + " ")[j] != '_'
  {
    var d := NatToString(ms);
    var r := BreakTag(ms) + " ";
    assert r == "<break time=\"" + d + "ms\"/> ";
    forall j | 0 <= j < |r| ensures !IsSentencePunct(r[j]) && !('A' <= r[j] <= 'Z') && r[j] != '_' {
      if 13 <= j < 13 + |d| {
        assert r[j] == d[j - 13];
      }
    }
  }

  /** insert_sentence_breaks is exactly the splice of the sentence-end
      matches, and afterwards no sentence end is followed by whitespace. */
  lemma SentenceBreaksInserted(s: string, pauseMs: nat)
    ensures SpansIn(s, 0, MatchesFrom(s, 0))
    ensures InsertSentenceBreaks(s, pauseMs) == Splice(s, 0, MatchesFrom(s, 0), BreakTag(pauseMs) + " ")
    ensures NoBoundary(InsertSentenceBreaks(s, pauseMs))
    ensures NoBoundary(s) ==> InsertSentenceBreaks(s, pauseMs) == s
  {
    var rep := BreakTag(pauseMs) + " ";
    SubIsSplice(s, rep, 0);
    BreakTagPlain(pauseMs);
    SubLeavesNoBoundary(s, rep, 0);
    if NoBoundary(s) {
      SubNoBoundary(s, rep, 0);
    }
  }

  // ---------------------------------------------------------------------
  // Break tags in the text to escape

  /** Index of the first '>' at or after p (|s| if there is none). */
  function FindGt(s: string, p: nat): (q: nat)
    requires p <= |s|
    ensures p <= q <= |s| && (q < |s| ==> s[q] == '>')
    decreases |s| - p
  {
    if p == |s| || s[p] == '>' then p else FindGt(s, p + 1)
  }

  /** No '>' lies between p and the one FindGt finds. */
  lemma {:induction false} FindGtFirst(s: string, p: nat)
    requires p <= |s|
    ensures forall j :: p <= j < FindGt(s, p) ==> s[j] != '>'
    decreases |s| - p
  {
    if p < |s| && s[p] != '>' {
      FindGtFirst(s, p + 1);
    }
  }

  /** The regex <break[^>]*?> matches at the front of s. */
  predicate TagAt(s: string)
  {
    StartsWith(s, "<break") && FindGt(s, 6) < |s|
  }

  /** Length of the break tag at the front of s: it ends at the first '>'. */
  function TagLen(s: string): (n: nat)
    requires TagAt(s)
    ensures 7 <= n <= |s| && s[n - 1] == '>'
  {
    FindGt(s, 6) + 1
  }

  /** The entity replacements of the escape stage, one character at a time. */
  function EscapeChar(c: char): string
  {
    if c == '&' then "&amp;" else if c == '<' then "&lt;" else if c == '>' then "&gt;" else [c]
  }

  /** Per-character escaping of a whole text. */
  function EscapeEach(s: string): string
    decreases |s|
  {
    if s == [] then [] else EscapeChar(s[0]) + EscapeEach(s[1..])
  }

  /** The reference escaper: break tags kept verbatim, everything else
      escaped character by character. */
  function EscapeRef(s: string): string
    decreases |s|
  {
    if s == [] then []
    else if TagAt(s) then s[..TagLen(s)] + EscapeRef(s[TagLen(s)..])
    else EscapeChar(s[0]) + EscapeRef(s[1..])
  }

  /** A reader of the escaped text: a '<' opens markup that runs to the next
      '>' and is kept, the three entities stand for their characters, and any
      other character stands for itself. */
  function Unescape(o: string): string
    decreases |o|
  {
    if o == [] then []
    else if o[0] == '<' && FindGt(o, 1) < |o| then o[..FindGt(o, 1) + 1] + Unescape(o[FindGt(o, 1) + 1..])
    else if AmpAt(o) then "&" + Unescape(o[5..])
    else if EntityAt(o, 'l') then "<" + Unescape(o[4..])
    else if EntityAt(o, 'g') then ">" + Unescape(o[4..])
    else [o[0]] + Unescape(o[1..])
  }

  /** o starts with the entity "&amp;". */
  predicate AmpAt(o: string)
  {
    5 <= |o| && o[0] == '&' && o[1] == 'a' && o[2] == 'm' && o[3] == 'p' && o[4] == ';'
  }

  /** o starts with "&lt;" (first letter 'l') or "&gt;" (first letter 'g'). */
  predicate EntityAt(o: string, first: char)
  {
    4 <= |o| && o[0] == '&' && o[1] == first && o[2] == 't' && o[3] == ';'
  }

  /** A break tag at the front of the reader's input passes through as markup. */
  lemma UnescapeTag(s: string, y: string)
    requires TagAt(s)
    ensures Unescape(s[..TagLen(s)] + y) == s[..TagLen(s)] + Unescape(y)
  {
    var t := s[..TagLen(s)];
    var o := t + y;
    var e := |t| - 1;
    FindGtFirst(s, 6);
    forall j | 1 <= j < e ensures o[j] != '>' {
      assert o[j] == s[j];
      if j < 6 {
        assert s[j] == s[..6][j] == "<break"[j];
      }
    }
    assert o[0] == '<' && o[e] == '>';
    FindGtExact(o, 1, e);
    assert o[..e + 1] == t && o[e + 1..] == y;
  }

  lemma {:induction false} FindGtExact(s: string, a: nat, b: nat)
    requires a <= b < |s| && s[b] == '>'
    requires forall j :: a <= j < b ==> s[j] != '>'
    ensures FindGt(s, a) == b
    decreases b - a
  {
    if a < b {
      FindGtExact(s, a + 1, b);
    }
  }

  lemma UnescapeAmp(y: string)
    ensures Unescape("&amp;" + y) == "&" + Unescape(y)
  {
    var o := "&amp;" + y;
    assert AmpAt(o) && o[5..] == y;
  }

  lemma UnescapeLt(y: string)
    ensures Unescape("&lt;" + y) == "<" + Unescape(y)
  {
    var o := "&lt;" + y;
    assert !AmpAt(o) && EntityAt(o, 'l') && o[4..] == y;
  }

  lemma UnescapeGt(y: string)
    ensures Unescape("&gt;" + y) == ">" + Unescape(y)
  {
    var o := "&gt;" + y;
    assert !AmpAt(o) && !EntityAt(o, 'l') && EntityAt(o, 'g') && o[4..] == y;
  }

  lemma UnescapePlain(c: char, y: string)
    requires c != '&' && c != '<'
    ensures Unescape([c] + y) == [c] + Unescape(y)
  {
    var o := [c] + y;
    assert o[0] == c && o[1..] == y;
  }

  /** An escaped character at the front of the reader's input reads back as the character. */
  lemma UnescapeChar(c: char, y: string)
    ensures Unescape(EscapeChar(c) + y) == [c] + Unescape(y)
  {
    if c == '&' {
      UnescapeAmp(y);
    } else if c == '<' {
      UnescapeLt(y);
    } else if c == '>' {
      UnescapeGt(y);
    } else {
      UnescapePlain(c, y);
    }
  }

  /** One step of the round trip: a break tag in front of text that reads back. */
  lemma RoundTripTag(s: string)
    requires TagAt(s) && Unescape(EscapeRef(s[TagLen(s)..])) == s[TagLen(s)..]
    ensures Unescape(EscapeRef(s)) == s
  {
    var n := TagLen(s);
    EscapeRefStep(s);
    UnescapeTag(s, EscapeRef(s[n..]));
    TakeDrop(s, n);
  }

  /** One step of the round trip: an escaped character in front of text that reads back. */
  lemma RoundTripChar(s: string)
    requires s != [] && !TagAt(s) && Unescape(EscapeRef(s[1..])) == s[1..]
    ensures Unescape(EscapeRef(s)) == s
  {
    EscapeRefStep(s);
    UnescapeChar(s[0], EscapeRef(s[1..]));
    TakeDrop(s, 1);
    assert s[..1] == [s[0]];
  }

  /** The reference escaper's first step: a whole break tag, or one escaped character. */
  lemma EscapeRefStep(s: string)
    requires s != []
    ensures TagAt(s) ==> EscapeRef(s) == s[..TagLen(s)] + EscapeRef(s[TagLen(s)..])
    ensures !TagAt(s) ==> EscapeRef(s) == EscapeChar(s[0]) + EscapeRef(s[1..])
  {
  }

  /** Reading the escaped text gives back the input: the escaping loses
      nothing and invents nothing. */
  lemma {:induction false} EscapeRoundTrip(s: string)
    ensures Unescape(EscapeRef(s)) == s
    decreases |s|
  {
    if s == [] {
    } else if TagAt(s) {
      EscapeRoundTrip(s[TagLen(s)..]);
      RoundTripTag(s);
    } else {
      EscapeRoundTrip(s[1..]);
      RoundTripChar(s);
    }
  }

  /** Text as the escaping leaves it: break tags, the entities "&amp;",
      "&lt;" and "&gt;", and characters other than '&', '<' and '>'. Outside
      the break tags no '&', '<' or '>' stands bare. */
  predicate WellEscaped(o: string)
    decreases |o|
  {
    o == []
    || (TagAt(o) && WellEscaped(o[TagLen(o)..]))
    || (AmpAt(o) && WellEscaped(o[5..]))
    || ((EntityAt(o, 'l') || EntityAt(o, 'g')) && WellEscaped(o[4..]))
    || (o[0] != '&' && o[0] != '<' && o[0] != '>' && WellEscaped(o[1..]))
  }

  /** A break tag copied in front of any text is still a break tag, of the
      same length. */
  lemma TagCopiedFront(s: string, y: string)
    requires TagAt(s)
    ensures TagAt(s[..TagLen(s)] + y) && TagLen(s[..TagLen(s)] + y) == TagLen(s)
    ensures (s[..TagLen(s)] + y)[TagLen(s)..] == y
  {
    var t := s[..TagLen(s)];
    var o := t + y;
    var e := |t| - 1;
    FindGtFirst(s, 6);
    forall j | 6 <= j < e ensures o[j] != '>' {
      assert o[j] == s[j];
    }
    assert o[..6] == s[..6];
    FindGtExact(o, 6, e);
  }

  /** A copied break tag in front of escaped text keeps it escaped. */
  lemma WellEscapedTag(s: string, y: string)
    requires TagAt(s) && WellEscaped(y)
    ensures WellEscaped(s[..TagLen(s)] + y)
  {
    TagCopiedFront(s, y);
  }

  /** An escaped character in front of escaped text keeps it escaped. */
  lemma WellEscapedChar(c: char, y: string)
    requires WellEscaped(y)
    ensures WellEscaped(EscapeChar(c) + y)
  {
    var o := EscapeChar(c) + y;
    if c == '&' {
      assert AmpAt(o) && o[5..] == y;
    } else if c == '<' {
      assert EntityAt(o, 'l') && o[4..] == y;
    } else if c == '>' {
      assert EntityAt(o, 'g') && o[4..] == y;
    } else {
      assert o[0] == c && o[1..] == y;
    }
  }

  /** The reference escaper leaves no bare '&', '<' or '>' outside the break
      tags it keeps. */
  lemma {:induction false} EscapeRefWellEscaped(s: string)
    ensures WellEscaped(EscapeRef(s))
    decreases |s|
  {
    if s != [] {
      EscapeRefStep(s);
      if TagAt(s) {
        EscapeRefWellEscaped(s[TagLen(s)..]);
        WellEscapedTag(s, EscapeRef(s[TagLen(s)..]));
      } else {
        EscapeRefWellEscaped(s[1..]);
        WellEscapedChar(s[0], EscapeRef(s[1..]));
      }
    }
  }

  // ---------------------------------------------------------------------
  // escape_for_ssml as written

  /** The placeholder f"__BREAK_{i}__" that stands for the i-th stored tag. */
  function Placeholder(i: nat): string
  {
    "__BREAK_" + NatToString(i) + "__"
  }

  /** Where each character of a placeholder comes from. */
  lemma PlaceholderChar(i: nat, k: nat)
    requires k < |Placeholder(i)|
    ensures |Placeholder(i)| == |NatToString(i)| + 10
    ensures k < 8 ==> Placeholder(i)[k] == "__BREAK_"[k]
    ensures 8 <= k < |Placeholder(i)| - 2 ==> Placeholder(i)[k] == NatToString(i)[k - 8]
    ensures |Placeholder(i)| - 2 <= k ==> Placeholder(i)[k] == '_'
  {
  }

  /** A placeholder holds none of the characters the escape stage rewrites. */
  lemma PlaceholderPlain(i: nat)
    ensures forall j :: 0 <= j < |Placeholder(i)| ==> Placeholder(i)[j] != '&' && Placeholder(i)[j] != '<' && Placeholder(i)[j] != '>'
  {
    forall j | 0 <= j < |Placeholder(i)|
      ensures Placeholder(i)[j] != '&' && Placeholder(i)[j] != '<' && Placeholder(i)[j] != '>'
    {
      PlaceholderChar(i, j);
    }
  }

  /** Stage 1, the text: re.sub(r"<break[^>]*?>", _store, s) with n tags stored before. */
  function StashText(s: string, n: nat): string
    decreases |s|
  {
    if s == [] then []
    else if TagAt(s) then Placeholder(n) + StashText(s[TagLen(s)..], n + 1)
    else [s[0]] + StashText(s[1..], n)
  }

  /** Stage 1, the list _store fills: the break tags in order. */
  function Tags(s: string): seq<string>
    decreases |s|
  {
    if s == [] then []
    else if TagAt(s) then [s[..TagLen(s)]] + Tags(s[TagLen(s)..])
    else Tags(s[1..])
  }

  /** Stage 2: the three chained str.replace calls. */
  function EscapeAll(s2: string): string
  {
    ReplaceAll(ReplaceAll(ReplaceAll(s2, "&", "&amp;"), "<", "&lt;"), ">", "&gt;")
  }

  /** Stage 3 after i rounds of the restore loop. */
  function RestoreUpTo(base: string, breaks: seq<string>, i: nat): string
    requires i <= |breaks|
  {
    if i == 0 then base
    else ReplaceAll(RestoreUpTo(base, breaks, i - 1), Placeholder(i - 1), breaks[i - 1])
  }

  /** escape_for_ssml as main.py computes it. */
  function EscapeAsWritten(s: string): string
  {
    RestoreUpTo(EscapeAll(StashText(s, 0)), Tags(s), |Tags(s)|)
  }

  /** One step of re.sub at position p with n tags stored so far: at a break
      tag, _store's placeholder and the stored tag; elsewhere the character
      itself and nothing stored. */
  method StoreStep(s: string, p: nat, n: nat) returns (piece: string, stored: seq<string>, next: nat)
    requires p < |s|
    ensures p < next <= |s| && |stored| <= 1
    ensures StashText(s[p..], n) == piece + StashText(s[next..], n + |stored|)
    ensures Tags(s[p..]) == stored + Tags(s[next..])
  {
    var rest := s[p..];
    if TagAt(rest) {
      var len := TagLen(rest);
      StashTag(rest, n);
      DropDrop(s, p, len);
      piece, stored, next := Placeholder(n), [rest[..len]], p + len;
      assert s[next..] == rest[len..] && n + |stored| == n + 1;
    } else {
      StashCopy(rest, n);
      DropDrop(s, p, 1);
      piece, stored, next := [s[p]], [], p + 1;
      assert s[next..] == rest[1..] && rest[0] == s[p] && stored + Tags(s[next..]) == Tags(s[next..]);
    }
  }

  /** Where a break tag starts, stage 1 emits its placeholder and stores it. */
  lemma StashTag(rest: string, n: nat)
    requires TagAt(rest)
    ensures StashText(rest, n) == Placeholder(n) + StashText(rest[TagLen(rest)..], n + 1)
    ensures Tags(rest) == [rest[..TagLen(rest)]] + Tags(rest[TagLen(rest)..])
  {
  }

  /** Elsewhere it copies one character and stores nothing. */
  lemma StashCopy(rest: string, n: nat)
    requires rest != [] && !TagAt(rest)
    ensures StashText(rest, n) == [rest[0]] + StashText(rest[1..], n)
    ensures Tags(rest) == Tags(rest[1..])
  {
  }

  /** Stage 1: re.sub runs _store on each break tag, left to right; _store
      appends the tag to breaks and returns the placeholder for its index. */
  method StoreBreaks(s: string) returns (s2: string, breaks: seq<string>)
    ensures s2 == StashText(s, 0) && breaks == Tags(s)
  {
    breaks := [];
    s2 := "";
    var p := 0;
    while p < |s|
      invariant p <= |s|
      invariant s2 + StashText(s[p..], |breaks|) == StashText(s, 0)
      invariant breaks + Tags(s[p..]) == Tags(s)
      decreases |s| - p
    {
      var piece, stored, next := StoreStep(s, p, |breaks|);
      ghost var n' := |breaks + stored|;
      assert n' == |breaks| + |stored|;
      AppendAssoc(s2, piece, StashText(s[next..], n'));
      assert s2 + StashText(s[p..], |breaks|) == (s2 + piece) + StashText(s[next..], n');
      AppendAssoc(breaks, stored, Tags(s[next..]));
      assert breaks + Tags(s[p..]) == (breaks + stored) + Tags(s[next..]);
      s2, breaks, p := s2 + piece, breaks + stored, next;
    }
    assert s[p..] == [];
    assert s2 + [] == s2 && breaks + [] == breaks;
  }

  /** escape_for_ssml: store the break tags behind placeholders, escape the
      rest, then put the tags back one placeholder at a time. */
  method EscapeForSsml(s: string) returns (r: string)
    ensures r == EscapeAsWritten(s)
  {
    var s2, breaks := StoreBreaks(s);
    s2 := ReplaceAll(s2, "&", "&amp;");
    s2 := ReplaceAll(s2, "<", "&lt;");
    s2 := ReplaceAll(s2, ">", "&gt;");
    ghost var base := s2;
    var i := 0;
    while i < |breaks|
      invariant i <= |breaks|
      invariant s2 == RestoreUpTo(base, breaks, i)
    {
      s2 := ReplaceAll(s2, Placeholder(i), breaks[i]);
      i := i + 1;
    }
    r := s2;
  }

  // ---------------------------------------------------------------------
  // When the code meets the reference

  /** Per-character escaping keeps concatenation. */
  lemma {:induction false} EscapeEachConcat(a: string, b: string)
    ensures EscapeEach(a + b) == EscapeEach(a) + EscapeEach(b)
    decreases |a|
  {
    if a == [] {
      assert a + b == b;
    } else {
      var h, t := EscapeChar(a[0]), a[1..];
      assert (a + b)[0] == a[0] && (a + b)[1..] == t + b;
      assert EscapeEach(a + b) == h + EscapeEach(t + b);
      EscapeEachConcat(t, b);
      assert EscapeEach(a) == h + EscapeEach(t);
      AppendAssoc(h, EscapeEach(t), EscapeEach(b));
    }
  }

  /** Text without '&', '<' and '>' is left as it is. */
  lemma {:induction false} EscapeEachPlain(s: string)
    requires forall j :: 0 <= j < |s| ==> s[j] != '&' && s[j] != '<' && s[j] != '>'
    ensures EscapeEach(s) == s
    decreases |s|
  {
    if s != [] {
      EscapeEachPlain(s[1..]);
    }
  }

  /** The three replacement passes, each on one character. */
  function Passes(s: string): string
  {
    MapChar(MapChar(MapChar(s, '&', "&amp;"), '<', "&lt;"), '>', "&gt;")
  }

  lemma PassesConcat(a: string, b: string)
    ensures Passes(a + b) == Passes(a) + Passes(b)
  {
    var a1, b1 := MapChar(a, '&', "&amp;"), MapChar(b, '&', "&amp;");
    MapCharConcat(a, b, '&', "&amp;");
    MapCharConcat(a1, b1, '<', "&lt;");
    MapCharConcat(MapChar(a1, '<', "&lt;"), MapChar(b1, '<', "&lt;"), '>', "&gt;");
  }

  /** The passes on one character give that character's escape: the entity
      one pass introduces holds no character a later pass rewrites. */
  lemma PassesChar(c: char)
    ensures Passes([c]) == EscapeChar(c)
  {
    MapCharSingle(c, '&', "&amp;");
    if c == '&' {
      MapCharAbsent("&amp;", '<', "&lt;");
      MapCharAbsent("&amp;", '>', "&gt;");
    } else {
      MapCharSingle(c, '<', "&lt;");
      if c == '<' {
        MapCharAbsent("&lt;", '>', "&gt;");
      } else {
        MapCharSingle(c, '>', "&gt;");
      }
    }
  }

  lemma {:induction false} PassesEach(s: string)
    ensures Passes(s) == EscapeEach(s)
    decreases |s|
  {
    if s != [] {
      PassesEach(s[1..]);
      PassesConcat([s[0]], s[1..]);
      PassesChar(s[0]);
      assert [s[0]] + s[1..] == s;
    }
  }

  /** The chained str.replace calls escape each character on its own. */
  lemma EscapeAllEach(s: string)
    ensures EscapeAll(s) == EscapeEach(s)
  {
    var s1 := ReplaceAll(s, "&", "&amp;");
    var s2 := ReplaceAll(s1, "<", "&lt;");
    ReplaceOneChar(s, '&', "&amp;");
    ReplaceOneChar(s1, '<', "&lt;");
    ReplaceOneChar(s2, '>', "&gt;");
    PassesEach(s);
  }

  /** The text during the restore loop, for the part of the input from a
      point where n tags lie before it: characters escaped, tags numbered
      below i back in place, the later ones still placeholders. */
  function Render(s: string, i: nat, n: nat): string
    decreases |s|
  {
    if s == [] then []
    else if TagAt(s) then (if n < i then s[..TagLen(s)] else Placeholder(n)) + Render(s[TagLen(s)..], i, n + 1)
    else EscapeChar(s[0]) + Render(s[1..], i, n)
  }

  /** Before the restore loop the text is the rendering with no tag restored. */
  lemma {:induction false} StashRender(s: string, n: nat)
    ensures EscapeEach(StashText(s, n)) == Render(s, 0, n)
    decreases |s|
  {
    if s == [] {
    } else if TagAt(s) {
      var rest := s[TagLen(s)..];
      StashRender(rest, n + 1);
      EscapeEachConcat(Placeholder(n), StashText(rest, n + 1));
      PlaceholderPlain(n);
      EscapeEachPlain(Placeholder(n));
    } else {
      StashRender(s[1..], n);
      EscapeEachConcat([s[0]], StashText(s[1..], n));
      assert [s[0]][1..] == [];
    }
  }

  /** With every tag restored the rendering is the reference escaper. */
  lemma {:induction false} RenderAll(s: string, i: nat, n: nat)
    requires n + |Tags(s)| <= i
    ensures Render(s, i, n) == EscapeRef(s)
    decreases |s|
  {
    if s == [] {
    } else if TagAt(s) {
      RenderAll(s[TagLen(s)..], i, n + 1);
    } else {
      RenderAll(s[1..], i, n);
    }
  }

  /** Whatever the rendering starts with, if it holds no '<' or '&' and
      each of its underscores is followed by a digit, was copied from the
      input: tags start with '<', entities with '&' and placeholders with
      two underscores. */
  lemma {:induction false} RenderPrefixCopied(s: string, i: nat, n: nat, x: string)
    requires forall j :: 0 <= j < |x| ==> x[j] != '<' && x[j] != '&'
    requires forall j :: 0 <= j < |x| && x[j] == '_' ==> j + 1 < |x| && IsDigit(x[j + 1])
    ensures StartsWith(Render(s, i, n), x) ==> StartsWith(s, x)
    decreases |s|
  {
    var out := Render(s, i, n);
    if x == [] || s == [] {
    } else {
      RenderStep(s, i, n);
      StartsWithAt(out, x, 0);
      if TagAt(s) {
        PlaceholderChar(n, 0);
        PlaceholderChar(n, 1);
        assert s[0] == s[..6][0] == '<';
        assert out[0] == '<' || (out[0] == '_' && out[1] == '_');
        if |x| > 1 {
          StartsWithAt(out, x, 1);
        }
      } else if s[0] == '&' || s[0] == '<' || s[0] == '>' {
        assert out[0] == '&';
      } else {
        var rest := Render(s[1..], i, n);
        assert out == [s[0]] + rest;
        forall j | 0 <= j < |x| - 1 && x[1..][j] == '_' ensures j + 1 < |x| - 1 && IsDigit(x[1..][j + 1]) {
          assert x[j + 1] == '_';
        }
        RenderPrefixCopied(s[1..], i, n, x[1..]);
        StartsWithCons(s[0], rest, x);
        StartsWithCons(s[0], s[1..], x);
        TakeDrop(s, 1);
        assert s[..1] == [s[0]];
      }
    }
  }

  /** Without "BREAK_" in the input, the rendering does not start with
      what follows the "__" at the front of a placeholder: "BREAK_" and a
      digit would have been copied from the input. */
  lemma RenderNoPlaceholderTail(s: string, i: nat, n: nat, k: nat)
    requires !Contains(s, "BREAK_")
    ensures !StartsWith(Render(s, i, n), Placeholder(k)[2..])
  {
    var pl := Placeholder(k);
    var x := pl[2..][..7];
    PlaceholderHead(k);
    assert x == "BREAK_" + [pl[8]];
    StartsWithShorter(Render(s, i, n), pl[2..], 7);
    RenderPrefixCopied(s, i, n, x);
    assert StartsWith(s, x) ==> OccursAt(s, "BREAK_", 0);
  }

  /** Without "BREAK_" in the input, the rendering does not start with what
      follows the first '_' of a placeholder. */
  lemma RenderNoUnderscorePlaceholderTail(s: string, i: nat, n: nat, k: nat)
    requires !Contains(s, "BREAK_")
    ensures !StartsWith(Render(s, i, n), Placeholder(k)[1..])
  {
    var pl := Placeholder(k);
    PlaceholderHead(k);
    if s != [] {
      var out := Render(s, i, n);
      RenderStep(s, i, n);
      StartsWithAt(out, pl[1..], 0);
      StartsWithAt(out, pl[1..], 1);
      if TagAt(s) {
        PlaceholderChar(n, 1);
        assert s[0] == s[..6][0] == '<';
        assert out[0] == '<' || out[1] == '_';
      } else if s[0] == '&' || s[0] == '<' || s[0] == '>' {
        assert out[0] == '&';
      } else {
        var rest := Render(s[1..], i, n);
        AbsentSuffix(s, 1, "BREAK_");
        RenderNoPlaceholderTail(s[1..], i, n, k);
        assert out == [s[0]] + rest;
        StartsWithCons(s[0], rest, pl[1..]);
        assert pl[1..][1..] == pl[2..];
      }
    }
  }

  /** A placeholder only starts where the same placeholder stands: the
      digits run up to the "__" that closes each of them. */
  lemma PlaceholderPrefix(i: nat, n: nat, y: string)
    ensures StartsWith(Placeholder(n) + y, Placeholder(i)) ==> i == n
  {
    var o := Placeholder(n) + y;
    var di, dn := NatToString(i), NatToString(n);
    if StartsWith(o, Placeholder(i)) {
      forall j | 8 <= j < 8 + |dn| ensures IsDigit(o[j]) {
        PlaceholderChar(n, j);
      }
      PlaceholderChar(n, 8 + |dn|);
      SkipDigitsExact(o, 8, 8 + |dn|);
      forall j | 8 <= j < 8 + |di| ensures IsDigit(o[j]) {
        PlaceholderChar(i, j);
        assert o[j] == o[..|Placeholder(i)|][j];
      }
      PlaceholderChar(i, 8 + |di|);
      assert o[8 + |di|] == o[..|Placeholder(i)|][8 + |di|];
      SkipDigitsExact(o, 8, 8 + |di|);
      assert di == Placeholder(i)[8..8 + |di|] == o[8..8 + |di|];
      assert dn == Placeholder(n)[8..8 + |dn|] == o[8..8 + |dn|];
      NatToStringInjective(i, n);
    }
  }

  /** A placeholder starts with "__BREAK_" and a digit and holds no '>'. */
  lemma PlaceholderHead(i: nat)
    ensures |Placeholder(i)| >= 11
    ensures Placeholder(i)[0] == '_' && Placeholder(i)[1] == '_' && Placeholder(i)[2] == 'B'
    ensures OccursAt(Placeholder(i), "BREAK_", 2) && IsDigit(Placeholder(i)[8])
    ensures forall j :: 0 <= j < |Placeholder(i)| ==> Placeholder(i)[j] != '>'
  {
    PlaceholderPlain(i);
    PlaceholderChar(i, 8);
  }

  /** No placeholder starts inside a break tag taken from text without "BREAK_":
      one ending inside the tag would put "BREAK_" there, one running past it
      would hold the tag's closing '>'. */
  lemma TagCopied(s: string, y: string, i: nat, tag: string)
    requires TagAt(s) && !Contains(s, "BREAK_")
    ensures ReplaceAll(s[..TagLen(s)] + y, Placeholder(i), tag) == s[..TagLen(s)] + ReplaceAll(y, Placeholder(i), tag)
  {
    var x := s[..TagLen(s)];
    var pl := Placeholder(i);
    PlaceholderHead(i);
    ContainsSlice(s, 0, TagLen(s), "BREAK_");
    assert s[0..TagLen(s)] == x;
    forall k | 0 <= k < |x| ensures !StartsWith(x[k..] + y, pl) {
      if k + |pl| <= |x| {
        StartsWithInside(x, y, k, pl);
        if OccursAt(x, pl, k) {
          OccursTrans(x, pl, "BREAK_", k, 2);
        }
      } else {
        StartsWithAt(x[k..] + y, pl, |x| - 1 - k);
        assert (x[k..] + y)[|x| - 1 - k] == '>';
      }
    }
    ReplaceCopy(x, y, pl, tag);
  }

  /** No placeholder other than itself starts inside placeholder n when the
      text after it starts with neither of the two tails of placeholder i
      that could complete it. */
  lemma PlaceholderCopied(n: nat, y: string, i: nat, tag: string)
    requires n != i && !StartsWith(y, Placeholder(i)[2..]) && !StartsWith(y, Placeholder(i)[1..])
    ensures ReplaceAll(Placeholder(n) + y, Placeholder(i), tag) == Placeholder(n) + ReplaceAll(y, Placeholder(i), tag)
  {
    var x := Placeholder(n);
    var pl := Placeholder(i);
    PlaceholderHead(i);
    PlaceholderChar(n, 0);
    forall k | 0 <= k < |x| ensures !StartsWith(x[k..] + y, pl) {
      if k == 0 {
        PlaceholderPrefix(i, n, y);
        assert x[0..] == x;
      } else if k < |x| - 2 {
        PlaceholderChar(n, k);
        PlaceholderChar(n, k + 1);
        StartsWithAt(x[k..] + y, pl, 0);
        StartsWithAt(x[k..] + y, pl, 1);
        assert (x[k..] + y)[0] == x[k] && (x[k..] + y)[1] == x[k + 1];
      } else {
        StartsWithDrop(x[k..], y, pl);
      }
    }
    ReplaceCopy(x, y, pl, tag);
  }

  /** No placeholder starts inside an escaped character, given that after an
      underscore the text does not go on with the rest of placeholder i. */
  lemma CharCopied(c: char, y: string, i: nat, tag: string)
    requires c == '_' ==> !StartsWith(y, Placeholder(i)[1..])
    ensures ReplaceAll(EscapeChar(c) + y, Placeholder(i), tag) == EscapeChar(c) + ReplaceAll(y, Placeholder(i), tag)
  {
    var x := EscapeChar(c);
    var pl := Placeholder(i);
    PlaceholderHead(i);
    forall k | 0 <= k < |x| ensures !StartsWith(x[k..] + y, pl) {
      StartsWithAt(x[k..] + y, pl, 0);
      if c == '&' || c == '<' || c == '>' {
        assert (x[k..] + y)[0] == x[k] != '_';
      } else {
        assert x[k..] + y == [c] + y;
        StartsWithCons(c, y, pl);
      }
    }
    ReplaceCopy(x, y, pl, tag);
  }

  /** One round of the restore loop: on text without "BREAK_", replacing
      placeholder i by tag i restores exactly that tag. */
  lemma {:induction false} RestoreStep(s: string, i: nat, n: nat, tag: string)
    requires !Contains(s, "BREAK_")
    requires i < n || (i - n < |Tags(s)| && tag == Tags(s)[i - n])
    ensures ReplaceAll(Render(s, i, n), Placeholder(i), tag) == Render(s, i + 1, n)
    decreases |s|, 1
  {
    if s == [] {
    } else if TagAt(s) {
      RestoreStepTag(s, i, n, tag);
    } else {
      RestoreStepChar(s, i, n, tag);
    }
  }

  /** RestoreStep when the text starts with a break tag. */
  lemma {:induction false} RestoreStepTag(s: string, i: nat, n: nat, tag: string)
    requires TagAt(s) && !Contains(s, "BREAK_")
    requires i < n || (i - n < |Tags(s)| && tag == Tags(s)[i - n])
    ensures ReplaceAll(Render(s, i, n), Placeholder(i), tag) == Render(s, i + 1, n)
    decreases |s|, 0
  {
    var rest := s[TagLen(s)..];
    TagsStep(s);
    if n <= i {
      assert Tags(s)[i - n] == if n == i then s[..TagLen(s)] else Tags(rest)[i - (n + 1)];
    }
    AbsentSuffix(s, TagLen(s), "BREAK_");
    RestoreStep(rest, i, n + 1, tag);
    RestoreTag(s, i, n, tag);
  }

  /** RestoreStep when the text starts with any other character. */
  lemma {:induction false} RestoreStepChar(s: string, i: nat, n: nat, tag: string)
    requires s != [] && !TagAt(s) && !Contains(s, "BREAK_")
    requires i < n || (i - n < |Tags(s)| && tag == Tags(s)[i - n])
    ensures ReplaceAll(Render(s, i, n), Placeholder(i), tag) == Render(s, i + 1, n)
    decreases |s|, 0
  {
    TagsStep(s);
    AbsentSuffix(s, 1, "BREAK_");
    RestoreStep(s[1..], i, n, tag);
    RestoreChar(s, i, n, tag);
  }

  /** The tag list's first step: a leading tag is stored, anything else is skipped. */
  lemma TagsStep(s: string)
    requires s != []
    ensures TagAt(s) ==> Tags(s) == [s[..TagLen(s)]] + Tags(s[TagLen(s)..])
    ensures !TagAt(s) ==> Tags(s) == Tags(s[1..])
  {
  }

  /** The rendering's first step: a tag (restored or still a placeholder), or one escaped character. */
  lemma RenderStep(s: string, i: nat, n: nat)
    requires s != []
    ensures TagAt(s) ==> Render(s, i, n) == (if n < i then s[..TagLen(s)] else Placeholder(n)) + Render(s[TagLen(s)..], i, n + 1)
    ensures !TagAt(s) ==> Render(s, i, n) == EscapeChar(s[0]) + Render(s[1..], i, n)
  {
  }

  /** The restore round over a leading break tag: the tag is copied when it
      is already restored, put back when it is tag i, and its placeholder
      copied when it comes later. */
  lemma RestoreTag(s: string, i: nat, n: nat, tag: string)
    requires TagAt(s) && !Contains(s, "BREAK_") && (n == i ==> tag == s[..TagLen(s)])
    requires ReplaceAll(Render(s[TagLen(s)..], i, n + 1), Placeholder(i), tag) == Render(s[TagLen(s)..], i + 1, n + 1)
    ensures ReplaceAll(Render(s, i, n), Placeholder(i), tag) == Render(s, i + 1, n)
  {
    var rest := s[TagLen(s)..];
    var y := Render(rest, i, n + 1);
    RenderStep(s, i, n);
    RenderStep(s, i + 1, n);
    if n < i {
      TagCopied(s, y, i, tag);
    } else if n == i {
      var pl := Placeholder(i);
      assert (pl + y)[..|pl|] == pl && (pl + y)[|pl|..] == y;
    } else {
      AbsentSuffix(s, TagLen(s), "BREAK_");
      RenderNoPlaceholderTail(rest, i, n + 1, i);
      RenderNoUnderscorePlaceholderTail(rest, i, n + 1, i);
      PlaceholderCopied(n, y, i, tag);
    }
  }

  /** The restore round over a leading character other than a tag copies its escape. */
  lemma RestoreChar(s: string, i: nat, n: nat, tag: string)
    requires s != [] && !TagAt(s) && !Contains(s, "BREAK_")
    requires ReplaceAll(Render(s[1..], i, n), Placeholder(i), tag) == Render(s[1..], i + 1, n)
    ensures ReplaceAll(Render(s, i, n), Placeholder(i), tag) == Render(s, i + 1, n)
  {
    RenderStep(s, i, n);
    RenderStep(s, i + 1, n);
    AbsentSuffix(s, 1, "BREAK_");
    RenderNoUnderscorePlaceholderTail(s[1..], i, n, i);
    CharCopied(s[0], Render(s[1..], i, n), i, tag);
  }

  /** After i rounds of the restore loop on text without "BREAK_", the first
      i tags are back in place. */
  lemma {:induction false} RestoreUpToRender(s: string, i: nat)
    requires !Contains(s, "BREAK_") && i <= |Tags(s)|
    ensures RestoreUpTo(EscapeAll(StashText(s, 0)), Tags(s), i) == Render(s, i, 0)
  {
    if i == 0 {
      EscapeAllEach(StashText(s, 0));
      StashRender(s, 0);
    } else {
      RestoreUpToRender(s, i - 1);
      RestoreStep(s, i - 1, 0, Tags(s)[i - 1]);
    }
  }

  /** On text that does not contain "BREAK_", escape_for_ssml as written
      gives the reference result. */
  lemma EscapeMatchesReference(s: string)
    requires !Contains(s, "BREAK_")
    ensures EscapeAsWritten(s) == EscapeRef(s)
  {
    RestoreUpToRender(s, |Tags(s)|);
    RenderAll(s, |Tags(s)|, 0);
  }

  // ---------------------------------------------------------------------
  // prepare_ssml_for_chunk

  /** The fixed three-second break a slide pause becomes. */
  const SlideBreak: string := "<break time=\"3000ms\"/>"

  /** The text prepare_ssml_for_chunk hands to escape_for_ssml: sentence
      breaks inserted, then every slide pause token replaced by SlideBreak. */
  function PreparedText(chunk: string, pauseMs: nat): string
  {
    ReplaceAll(InsertSentenceBreaks(chunk, pauseMs), Slides.PauseToken, SlideBreak)
  }

  /** The SSML document around the escaped text. */
  function Wrap(rate: string, escaped: string): string
  {
    "<speak><prosody rate=\"" + rate + "\">" + escaped + "</prosody></speak>"
  }

  /** prepare_ssml_for_chunk as main.py computes it, with escape_for_ssml as
      written. */
  function PrepareSsmlAsWritten(chunk: string, pauseMs: nat, rate: string): string
  {
    Wrap(rate, EscapeAsWritten(PreparedText(chunk, pauseMs)))
  }

  /** prepare_ssml_for_chunk with the reference escaper in place of
      escape_for_ssml; the two agree unless the chunk contains "BREAK_"
      (PrepareSsmlSound). */
  function PrepareSsml(chunk: string, pauseMs: nat, rate: string): string
  {
    Wrap(rate, EscapeRef(PreparedText(chunk, pauseMs)))
  }

  /** Upper-case letters and the underscore, as in "BREAK_", occur in no
      sentence break tag. */
  lemma BreakTagLower(ms: nat)
    ensures Disjoint("BREAK_", BreakTag(ms) + " ")
  {
    BreakTagPlain(ms);
  }

  /** SlideBreak holds no upper-case letter and no underscore, so it shares
      no character with "BREAK_" or with the pause token. */
  lemma SlideBreakLower()
    ensures Disjoint("BREAK_", SlideBreak) && Disjoint(Slides.PauseToken, SlideBreak)
  {
    forall j | 0 <= j < |SlideBreak| ensures !('A' <= SlideBreak[j] <= 'Z') && SlideBreak[j] != '_' {
    }
  }

  /** When the chunk does not contain "BREAK_", the prepared text does not
      either: neither replacement introduces it. */
  lemma PreparedNoBreakWord(chunk: string, pauseMs: nat)
    requires !Contains(chunk, "BREAK_")
    ensures !Contains(PreparedText(chunk, pauseMs), "BREAK_")
  {
    BreakTagLower(pauseMs);
    SlideBreakLower();
    assert chunk[0..] == chunk;
    SubKeepsAbsent(chunk, BreakTag(pauseMs) + " ", 0, "BREAK_");
    ReplaceKeepsAbsent(InsertSentenceBreaks(chunk, pauseMs), Slides.PauseToken, SlideBreak, "BREAK_");
  }

  /** What prepare_ssml_for_chunk promises: every slide pause token is gone,
      the SSML body is escaped and unescapes back to the prepared text, and on a chunk that
      does not contain "BREAK_" main.py's own escaping gives the same
      document. */
  lemma PrepareSsmlSound(chunk: string, pauseMs: nat, rate: string)
    ensures !Contains(PreparedText(chunk, pauseMs), Slides.PauseToken)
    ensures exists body ::
      PrepareSsml(chunk, pauseMs, rate) == Wrap(rate, body) && Unescape(body) == PreparedText(chunk, pauseMs) && WellEscaped(body)
    ensures !Contains(chunk, "BREAK_") ==> PrepareSsmlAsWritten(chunk, pauseMs, rate) == PrepareSsml(chunk, pauseMs, rate)
  {
    var c := PreparedText(chunk, pauseMs);
    SlideBreakLower();
    ReplaceRemovesAll(InsertSentenceBreaks(chunk, pauseMs), Slides.PauseToken, SlideBreak);
    EscapeRoundTrip(c);
    EscapeRefWellEscaped(c);
    if !Contains(chunk, "BREAK_") {
      PreparedNoBreakWord(chunk, pauseMs);
      EscapeMatchesReference(c);
    }
  }

  // ---------------------------------------------------------------------
  // The input that shows the restore stage going wrong

  /** Text with no '<' holds no break tag: stage 1 keeps it and the
      reference escaper escapes it character by character. */
  lemma {:induction false} NoTagText(x: string, n: nat)
    requires forall j :: 0 <= j < |x| ==> x[j] != '<'
    ensures Tags(x) == [] && StashText(x, n) == x && EscapeRef(x) == EscapeEach(x)
    decreases |x|
  {
    if x != [] {
      StartsWithAt(x, "<break", 0);
      NoTagText(x[1..], n);
      assert [x[0]] + x[1..] == x;
    }
  }

  /** "<break>" in front of any text is a break tag of length 7. */
  lemma TagFront(y: string)
    ensures TagAt("<break>" + y) && TagLen("<break>" + y) == 7
    ensures ("<break>" + y)[..7] == "<break>" && ("<break>" + y)[7..] == y
  {
    var u := "<break>" + y;
    assert u[..6] == "<break>"[..6];
    FindGtExact(u, 6, 6);
  }

  /** How each stage treats a "<break>" tag in front of any text. */
  lemma TagThen(y: string, n: nat)
    ensures Tags("<break>" + y) == ["<break>"] + Tags(y)
    ensures StashText("<break>" + y, n) == Placeholder(n) + StashText(y, n + 1)
    ensures EscapeRef("<break>" + y) == "<break>" + EscapeRef(y)
  {
    TagFront(y);
  }

  /** Two break tags in front of text without '<': both tags are stored. */
  lemma TwoTags(lit: string)
    requires forall j :: 0 <= j < |lit| ==> lit[j] != '<'
    ensures Tags("<break>" + ("<break>" + lit)) == ["<break>"] + ["<break>"]
  {
    var t := "<break>";
    TagThen(t + lit, 0);
    TagThen(lit, 1);
    NoTagText(lit, 2);
    assert [t] + [] == [t];
  }

  /** Two break tags in front of text without '<': two placeholders in front
      of the text. */
  lemma TwoStash(lit: string, n: nat)
    requires forall j :: 0 <= j < |lit| ==> lit[j] != '<'
    ensures StashText("<break>" + ("<break>" + lit), n) == Placeholder(n) + (Placeholder(n + 1) + lit)
  {
    var t := "<break>";
    TagThen(t + lit, n);
    TagThen(lit, n + 1);
    NoTagText(lit, n + 2);
  }

  /** Two break tags in front of text without '<': the reference escaper
      keeps both tags. */
  lemma TwoRef(lit: string)
    requires forall j :: 0 <= j < |lit| ==> lit[j] != '<'
    ensures EscapeRef("<break>" + ("<break>" + lit)) == "<break>" + ("<break>" + EscapeEach(lit))
  {
    var t := "<break>";
    TagThen(t + lit, 0);
    TagThen(lit, 1);
    NoTagText(lit, 2);
  }

  /** The first two placeholders, written out. */
  lemma FirstPlaceholders()
    ensures Placeholder(0) == "__BREAK_0__" && Placeholder(1) == "__BREAK_1__"
  {
  }

  /** Text that is placeholder 0 without its leading "__" ("BREAK_0__"):
      it holds nothing to escape, and placeholder 1 in front of it ends in
      placeholder 0. */
  lemma StraddleText(lit: string)
    requires "__" + lit == Placeholder(0)
    ensures forall j :: 0 <= j < |lit| ==> lit[j] != '&' && lit[j] != '<' && lit[j] != '>'
    ensures Placeholder(1) + lit == "__BREAK_1" + Placeholder(0)
  {
    PlaceholderPlain(0);
    forall j | 0 <= j < |lit| ensures lit[j] != '&' && lit[j] != '<' && lit[j] != '>' {
      assert lit[j] == ("__" + lit)[j + 2];
    }
    FirstPlaceholders();
    assert Placeholder(1) == "__BREAK_1" + "__";
  }

  /** Stage 2 leaves placeholders and plain text as they are. */
  lemma StraddleEscaped(lit: string)
    requires forall j :: 0 <= j < |lit| ==> lit[j] != '&' && lit[j] != '<' && lit[j] != '>'
    ensures EscapeAll(Placeholder(0) + (Placeholder(1) + lit)) == Placeholder(0) + (Placeholder(1) + lit)
  {
    var p0, p1 := Placeholder(0), Placeholder(1);
    PlaceholderPlain(0);
    PlaceholderPlain(1);
    EscapeEachPlain(p0);
    EscapeEachPlain(p1);
    EscapeEachPlain(lit);
    EscapeEachConcat(p1, lit);
    EscapeEachConcat(p0, p1 + lit);
    EscapeAllEach(p0 + (p1 + lit));
  }

  /** Placeholder 0 starts nowhere inside "__BREAK_1" followed by placeholder 0. */
  lemma StraddleNoEarlyMatch(k: nat)
    requires k < 9
    ensures !StartsWith("__BREAK_1"[k..] + "__BREAK_0__", "__BREAK_0__")
  {
    var u := "__BREAK_1"[k..] + "__BREAK_0__";
    if k == 0 {
      StartsWithAt(u, "__BREAK_0__", 8);
    } else if k == 7 {
      StartsWithAt(u, "__BREAK_0__", 1);
    } else {
      StartsWithAt(u, "__BREAK_0__", 0);
      StartsWithAt(u, "__BREAK_0__", 1);
    }
  }

  /** The first restore round on the straddling stage-2 text: the real
      placeholder 0 and the straddling one are both replaced. */
  lemma StraddleRound0()
    ensures ReplaceAll(Placeholder(0) + ("__BREAK_1" + Placeholder(0)), Placeholder(0), "<break>") == "<break>" + ("__BREAK_1" + "<break>")
  {
    var p0, x, t := "__BREAK_0__", "__BREAK_1", "<break>";
    FirstPlaceholders();
    forall k | 0 <= k < |x| ensures !StartsWith(x[k..] + p0, p0) {
      StraddleNoEarlyMatch(k);
    }
    ReplaceCopy(x, p0, p0, t);
    assert p0[..|p0|] == p0 && p0[|p0|..] == [];
    assert ReplaceAll(p0, p0, t) == t;
    var u := p0 + (x + p0);
    assert u[..|p0|] == p0 && u[|p0|..] == x + p0;
  }

  /** Placeholder 1 starts nowhere in the text the first round leaves. */
  lemma StraddleNoMatch(k: nat)
    requires k < 23
    ensures !StartsWith(("<break>" + ("__BREAK_1" + "<break>"))[k..] + [], "__BREAK_1__")
  {
    var u := ("<break>" + ("__BREAK_1" + "<break>"))[k..] + [];
    if k == 7 {
      StartsWithAt(u, "__BREAK_1__", 9);
    } else {
      StartsWithAt(u, "__BREAK_1__", 0);
      StartsWithAt(u, "__BREAK_1__", 1);
    }
  }

  /** The second restore round changes nothing. */
  lemma StraddleRound1()
    ensures ReplaceAll("<break>" + ("__BREAK_1" + "<break>"), Placeholder(1), "<break>") == "<break>" + ("__BREAK_1" + "<break>")
  {
    var r := "<break>" + ("__BREAK_1" + "<break>");
    FirstPlaceholders();
    forall k | 0 <= k < |r| ensures !StartsWith(r[k..] + [], "__BREAK_1__") {
      StraddleNoMatch(k);
    }
    ReplaceCopy(r, [], "__BREAK_1__", "<break>");
    assert r + [] == r;
  }

  /** Two restore rounds, written out. */
  lemma RestoreTwo(b: string, t: string)
    ensures RestoreUpTo(b, [t] + [t], 2) == ReplaceAll(ReplaceAll(b, Placeholder(0), t), Placeholder(1), t)
  {
    assert RestoreUpTo(b, [t] + [t], 1) == ReplaceAll(b, Placeholder(0), t);
  }

  /** Stages 1 and 2 on the straddling input: placeholder 0, then the
      stray "__BREAK_1", then what reads as placeholder 0 again. */
  lemma StraddleStaged(lit: string)
    requires "__" + lit == Placeholder(0)
    ensures EscapeAll(StashText("<break>" + ("<break>" + lit), 0)) == Placeholder(0) + ("__BREAK_1" + Placeholder(0))
  {
    StraddleText(lit);
    TwoStash(lit, 0);
    StraddleEscaped(lit);
  }

  /** On "<break><break>BREAK_0__" (lit is "BREAK_0__", which has no
      "__BREAK_" in it) the first restore round also replaces the
      "__BREAK_0__" formed by the end of placeholder 1 and the literal text
      after it, so a stray "__BREAK_1" is left and the second tag is lost,
      while the reference keeps the input as it is. */
  lemma EscapeStraddle(lit: string)
    requires "__" + lit == Placeholder(0)
    ensures EscapeAsWritten("<break>" + ("<break>" + lit)) == "<break>" + ("__BREAK_1" + "<break>")
    ensures EscapeRef("<break>" + ("<break>" + lit)) == "<break>" + ("<break>" + lit)
    ensures EscapeAsWritten("<break>" + ("<break>" + lit)) != EscapeRef("<break>" + ("<break>" + lit))
  {
    var t, x := "<break>", "__BREAK_1";
    var s := t + (t + lit);
    StraddleText(lit);
    TwoTags(lit);
    TwoRef(lit);
    EscapeEachPlain(lit);
    StraddleStaged(lit);
    RestoreTwo(Placeholder(0) + (x + Placeholder(0)), t);
    StraddleRound0();
    StraddleRound1();
    assert (t + (x + t))[7] == '_' && s[7] == '<';
  }

  /** The input of EscapeStraddle exists: "BREAK_0__" is placeholder 0
      without its leading "__". */
  lemma StraddleWitness()
    ensures "__" + "BREAK_0__" == Placeholder(0)
  {
    FirstPlaceholders();
  }
}
