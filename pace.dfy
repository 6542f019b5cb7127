/** resolve_pace with PACE_MAP (main.py:49-54, 129-130) and the pause
    arithmetic of both endpoints (main.py:167-169, 273-275).

    A pace name maps to an SSML prosody rate and a pause multiplier. The
    multiplier is kept in tenths (1.2 is 12), and int(base * multiplier)
    becomes base * tenths / 10, which floors; both operands are never
    negative, so floor and Python's truncation agree. */
module Pace {
  import opened Wrappers
  import opened Text

  /** A PACE_MAP entry: the prosody rate and the pause multiplier in tenths. */
  datatype Pace = Pace(rate: string, tenths: nat)

  /** PACE_MAP. */
  const PaceTable: map<string, Pace> := map[
    "slow" := Pace("-15%", 12),
    "normal" := Pace("0%", 10),
    "fast" := Pace("+20%", 8),
    "faster" := Pace("+40%", 6)
  ]

  /** str.lower() on the letters the pace names use: ASCII upper case
      becomes lower case, every other character stays. */
  function Lower(s: string): (r: string)
    ensures |r| == |s|
    decreases |s|
  {
    if s == [] then [] else [LowerAscii(s[0])] + Lower(s[1..])
  }

  /** resolve_pace: (pace or "").lower() looked up in PACE_MAP, "normal"'s
      entry when it is not there. */
  function ResolvePace(pace: Option<string>): Pace
  {
    var key := match pace case None => "" case Some(p) => Lower(p);
    if key in PaceTable then PaceTable[key] else PaceTable["normal"]
  }

  /** The argument both endpoints pass: pace or "normal". */
  function PaceOrNormal(pace: Option<string>): Option<string>
  {
    match pace
    case None => Some("normal")
    case Some(p) => if p == "" then Some("normal") else Some(p)
  }

  /** base_pause = max(0, int(pause_ms or 300)): an absent or zero pause is
      300 ms, a negative one 0. */
  function BasePause(pauseMs: Option<int>): nat
  {
    var v := match pauseMs case None => 300 case Some(ms) => if ms == 0 then 300 else ms;
    if v < 0 then 0 else v
  }

  /** effective_pause = max(0, int(base_pause * pause_multiplier)). */
  function EffectivePause(base: nat, p: Pace): nat
  {
    var scaled := base * p.tenths / 10;
    if scaled < 0 then 0 else scaled
  }

  /** Lower-casing twice is lower-casing once. */
  lemma {:induction false} LowerIdempotent(s: string)
    ensures Lower(Lower(s)) == Lower(s)
    decreases |s|
  {
    if s != [] {
      LowerIdempotent(s[1..]);
      assert Lower(s)[1..] == Lower(s[1..]);
    }
  }

  /** Every name that lower-cases to a table key finds that key's entry. */
  lemma ResolvePaceKnown(p: string)
    ensures Lower(p) == "slow" ==> ResolvePace(Some(p)) == Pace("-15%", 12)
    ensures Lower(p) == "normal" ==> ResolvePace(Some(p)) == Pace("0%", 10)
    ensures Lower(p) == "fast" ==> ResolvePace(Some(p)) == Pace("+20%", 8)
    ensures Lower(p) == "faster" ==> ResolvePace(Some(p)) == Pace("+40%", 6)
  {
  }

  /** An absent, empty or unknown name falls back to "normal": rate "0%",
      multiplier 1.0. */
  lemma ResolvePaceFallback(pace: Option<string>)
    requires pace.None? || Lower(pace.value) !in PaceTable
    ensures ResolvePace(pace) == Pace("0%", 10)
  {
  }

  /** The name is matched without regard to the case of its letters. */
  lemma ResolvePaceIgnoresCase(p: string)
    ensures ResolvePace(Some(p)) == ResolvePace(Some(Lower(p)))
  {
    LowerIdempotent(p);
  }

  /** Passing pace or "normal" instead of pace changes nothing. */
  lemma PaceOrNormalSame(pace: Option<string>)
    ensures ResolvePace(PaceOrNormal(pace)) == ResolvePace(pace)
  {
    assert Lower("normal") == "normal";
    assert Lower("") == "";
  }

  /** Whatever the name, the rate is one of the four table rates and the
      multiplier lies between 0.6 and 1.2. */
  lemma ResolvePaceRange(pace: Option<string>)
    ensures ResolvePace(pace) in PaceTable.Values
    ensures 6 <= ResolvePace(pace).tenths <= 12
  {
    assert PaceTable["normal"] in PaceTable.Values;
    var key := match pace case None => "" case Some(p) => Lower(p);
    if key in PaceTable {
      assert PaceTable[key] in PaceTable.Values;
    }
  }

  /** The base pause: 300 ms for an absent or zero value, 0 for a negative
      one, the value itself otherwise. */
  lemma BasePauseCases(pauseMs: Option<int>)
    ensures pauseMs == None || pauseMs == Some(0) ==> BasePause(pauseMs) == 300
    ensures pauseMs.Some? && pauseMs.value < 0 ==> BasePause(pauseMs) == 0
    ensures pauseMs.Some? && pauseMs.value > 0 ==> BasePause(pauseMs) == pauseMs.value
  {
  }

  /** A slower pace never shortens the pause: slow >= normal == base >= fast
      >= faster. */
  lemma PauseFollowsPace(base: nat)
    ensures EffectivePause(base, PaceTable["slow"]) >= EffectivePause(base, PaceTable["normal"]) == base
    ensures base >= EffectivePause(base, PaceTable["fast"]) >= EffectivePause(base, PaceTable["faster"])
  {
  }

  /** The effective pause is the base scaled by the multiplier, up to the
      rounding down: within one millisecond of base * tenths / 10. */
  lemma EffectivePauseScaled(base: nat, p: Pace)
    ensures EffectivePause(base, p) * 10 <= base * p.tenths < (EffectivePause(base, p) + 1) * 10
  {
  }
}
