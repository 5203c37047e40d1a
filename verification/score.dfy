/**
 * `extractScore` and `determineRiskLevel` (src/lib/analyzeContract.ts): the numeric score is
 * taken from the first of four patterns whose leftmost match captures an integer in [0, 100];
 * failing that, a keyword heuristic adjusts a baseline of 75 and clamps to [0, 100].
 */
module ScoreExtraction {
  import opened Wrappers
  import opened Text
  import opened Patterns

  /** The four score patterns, in the order they are tried. */
  const ScorePatterns: seq<Pattern> := [
    Pattern([Lit("score:"), Spaces], [], true),                   // /score:\s*(\d+)/i
    Pattern([Lit("rating:"), Spaces], [Lit("/100")], true),       // /rating:\s*(\d+)\/100/i
    Pattern([Lit("score"), Spaces, Lit("[")], [Lit("]")], true),  // /score\s*\[(\d+)\]/i
    Pattern([], [Spaces, Lit("/"), Spaces, Lit("100")], false)    // /(\d+)\s*\/\s*100/
  ]

  const BaselineScore: int := 75
  const HighRiskPenalty: int := 15
  const MediumRiskPenalty: int := 7
  const LowRiskBonus: int := 5

  const HighRiskPhrases: seq<string> :=
    ["serious concern", "highly unfair", "major risk", "significant issues"]
  const MediumRiskPhrases: seq<string> :=
    ["moderate concern", "potential issue", "some risk", "minor issues"]
  const LowRiskPhrases: seq<string> :=
    ["minimal risk", "fair terms", "well balanced", "clear language"]

  lemma LabelPatternWellFormed()
    ensures WellFormed(ScorePatterns[0].Tokens())
  {
    var t := ScorePatterns[0].Tokens();
    assert WellFormedAt(t, 0) && WellFormedAt(t, 1) && WellFormedAt(t, 2);
  }

  lemma RatingPatternWellFormed()
    ensures WellFormed(ScorePatterns[1].Tokens())
  {
    var t := ScorePatterns[1].Tokens();
    assert t[3..] == [Lit("/100")];
    assert WellFormedAt(t, 0) && WellFormedAt(t, 1) && WellFormedAt(t, 2) && WellFormedAt(t, 3);
  }

  lemma BracketPatternWellFormed()
    ensures WellFormed(ScorePatterns[2].Tokens())
  {
    var t := ScorePatterns[2].Tokens();
    assert t[4..] == [Lit("]")];
    assert WellFormedAt(t, 0) && WellFormedAt(t, 1) && WellFormedAt(t, 2);
    assert WellFormedAt(t, 3) && WellFormedAt(t, 4);
  }

  lemma FractionPatternWellFormed()
    ensures WellFormed(ScorePatterns[3].Tokens())
  {
    var t := ScorePatterns[3].Tokens();
    assert t[1..] == [Spaces, Lit("/"), Spaces, Lit("100")];
    assert t[1..][1..] == [Lit("/"), Spaces, Lit("100")];
    assert WellFormedAt(t, 0) && WellFormedAt(t, 1) && WellFormedAt(t, 2);
    assert WellFormedAt(t, 3) && WellFormedAt(t, 4);
  }

  /** Every score pattern can be matched greedily, so its `Candidate` is what the regex
      engine reports. */
  lemma ScorePatternsWellFormed()
    ensures forall k :: 0 <= k < |ScorePatterns| ==> WellFormed(ScorePatterns[k].Tokens())
  {
    LabelPatternWellFormed();
    RatingPatternWellFormed();
    BracketPatternWellFormed();
    FractionPatternWellFormed();
  }

  /** `score >= 0 && score <= 100` on a pattern's capture. */
  predicate Accepted(o: Option<nat>) {
    o.Some? && o.value <= 100
  }

  /** Pattern `k` is the first of `pats` whose capture is accepted. */
  predicate FirstAccepted(pats: seq<Pattern>, text: string, k: int) {
    && 0 <= k < |pats|
    && Accepted(Candidate(pats[k], text))
    && forall j :: 0 <= j < k ==> !Accepted(Candidate(pats[j], text))
  }

  /** The loop over the pattern list: the capture of the first pattern that is accepted. */
  function Ladder(pats: seq<Pattern>, text: string): (r: Option<nat>)
    ensures r.None? <==> forall k :: 0 <= k < |pats| ==> !Accepted(Candidate(pats[k], text))
    ensures r.Some? ==> exists k :: FirstAccepted(pats, text, k) && Candidate(pats[k], text) == r
    decreases |pats|
  {
    if pats == [] then None
    else if Accepted(Candidate(pats[0], text)) then
      assert FirstAccepted(pats, text, 0);
      Candidate(pats[0], text)
    else
      var r := Ladder(pats[1..], text);
      if r.Some? then
        var k :| FirstAccepted(pats[1..], text, k) && Candidate(pats[1..][k], text) == r;
        FirstAcceptedShift(pats, text, k);
        r
      else
        NoneAcceptedShift(pats, text);
        r
  }

  /** Past a rejected first pattern, the first accepted one of the rest is the first of all. */
  lemma FirstAcceptedShift(pats: seq<Pattern>, text: string, k: int)
    requires |pats| > 0 && !Accepted(Candidate(pats[0], text))
    requires FirstAccepted(pats[1..], text, k)
    ensures FirstAccepted(pats, text, k + 1) && pats[k + 1] == pats[1..][k]
  {
    forall j | 0 <= j < k + 1 ensures !Accepted(Candidate(pats[j], text)) {
      if j > 0 {
        assert pats[j] == pats[1..][j - 1];
      }
    }
  }

  /** A rejected first pattern followed by rejected ones: all are rejected. */
  lemma NoneAcceptedShift(pats: seq<Pattern>, text: string)
    requires |pats| > 0 && !Accepted(Candidate(pats[0], text))
    requires forall k :: 0 <= k < |pats[1..]| ==> !Accepted(Candidate(pats[1..][k], text))
    ensures forall k :: 0 <= k < |pats| ==> !Accepted(Candidate(pats[k], text))
  {
    forall k | 0 <= k < |pats| ensures !Accepted(Candidate(pats[k], text)) {
      if k > 0 {
        assert pats[k] == pats[1..][k - 1];
      }
    }
  }

  /** The one pattern the ladder stops at is unique. */
  lemma FirstAcceptedUnique(pats: seq<Pattern>, text: string, k: int, k': int)
    requires FirstAccepted(pats, text, k) && FirstAccepted(pats, text, k')
    ensures k == k'
  {
  }

  /** The set of phrases of the list that occur in the text. */
  function PresentPhrases(lowered: string, phrases: seq<string>): set<string> {
    set p | p in phrases && Contains(lowered, p)
  }

  /** One of the keyword loops: add `delta` once for each list entry that occurs. */
  function ApplyPhrases(score: int, lowered: string, phrases: seq<string>, delta: int): int
    decreases |phrases|
  {
    if phrases == [] then score
    else
      var next := if Contains(lowered, phrases[0]) then score + delta else score;
      ApplyPhrases(next, lowered, phrases[1..], delta)
  }

  predicate Distinct(phrases: seq<string>) {
    forall i, j :: 0 <= i < j < |phrases| ==> phrases[i] != phrases[j]
  }

  /** Peeling the first phrase off a list without repeats. */
  lemma PresentPhrasesCons(lowered: string, phrases: seq<string>)
    requires |phrases| > 0 && Distinct(phrases)
    ensures Distinct(phrases[1..])
    ensures Contains(lowered, phrases[0]) ==>
              |PresentPhrases(lowered, phrases)| == |PresentPhrases(lowered, phrases[1..])| + 1
    ensures !Contains(lowered, phrases[0]) ==>
              |PresentPhrases(lowered, phrases)| == |PresentPhrases(lowered, phrases[1..])|
  {
    var p, rest := phrases[0], phrases[1..];
    assert p !in rest by {
      forall j | 0 <= j < |rest| ensures rest[j] != p {
        assert rest[j] == phrases[j + 1];
      }
    }
    var present, restPresent := PresentPhrases(lowered, phrases), PresentPhrases(lowered, rest);
    assert phrases == [p] + rest;
    if Contains(lowered, p) {
      assert present == restPresent + {p};
      assert p !in restPresent;
    } else {
      assert present == restPresent;
    }
  }

  /** For a list without repeats the loop adds `delta` once per distinct phrase present,
      however often each occurs. */
  lemma {:induction false} ApplyPhrasesCounts(score: int, lowered: string, phrases: seq<string>, delta: int)
    requires Distinct(phrases)
    ensures ApplyPhrases(score, lowered, phrases, delta)
            == score + delta * |PresentPhrases(lowered, phrases)|
    ensures |PresentPhrases(lowered, phrases)| <= |phrases|
    decreases |phrases|
  {
    if phrases == [] {
      assert PresentPhrases(lowered, phrases) == {};
    } else {
      var next := if Contains(lowered, phrases[0]) then score + delta else score;
      PresentPhrasesCons(lowered, phrases);
      ApplyPhrasesCounts(next, lowered, phrases[1..], delta);
      var n := |PresentPhrases(lowered, phrases[1..])|;
      assert delta * (n + 1) == delta * n + delta;
    }
  }

  /** Both loops see the same phrases present, so they add the same amount. */
  lemma {:induction false} ApplyPhrasesPresence(score: int, l1: string, l2: string, phrases: seq<string>, delta: int)
    requires forall p :: p in phrases ==> (Contains(l1, p) <==> Contains(l2, p))
    ensures ApplyPhrases(score, l1, phrases, delta) == ApplyPhrases(score, l2, phrases, delta)
    decreases |phrases|
  {
    if phrases != [] {
      assert phrases[0] in phrases;
      var next := if Contains(l1, phrases[0]) then score + delta else score;
      ApplyPhrasesPresence(next, l1, l2, phrases[1..], delta);
    }
  }

  /** `Math.max(0, Math.min(100, x))`. */
  function Clamp(x: int): (r: nat)
    ensures r <= 100
    ensures 0 <= x <= 100 ==> r == x
    ensures x < 0 ==> r == 0
    ensures x > 100 ==> r == 100
  {
    if x < 0 then 0 else if x > 100 then 100 else x
  }

  /** The keyword heuristic used when no pattern yields a score. */
  function FallbackScore(text: string): (r: nat)
    ensures r <= 100
  {
    var lowered := JsLower(text);
    var afterHigh := ApplyPhrases(BaselineScore, lowered, HighRiskPhrases, -HighRiskPenalty);
    var afterMedium := ApplyPhrases(afterHigh, lowered, MediumRiskPhrases, -MediumRiskPenalty);
    var afterLow := ApplyPhrases(afterMedium, lowered, LowRiskPhrases, LowRiskBonus);
    Clamp(afterLow)
  }

  /** The fallback score in closed form: 75 - 15h - 7m + 5l clamped to [0, 100], where h, m and
      l count the distinct phrases of each list present. The unclamped value lies in
      [-13, 95], so only the lower bound of the clamp can take effect. */
  lemma FallbackFormula(text: string)
    ensures
      var lowered := JsLower(text);
      var h := |PresentPhrases(lowered, HighRiskPhrases)|;
      var m := |PresentPhrases(lowered, MediumRiskPhrases)|;
      var l := |PresentPhrases(lowered, LowRiskPhrases)|;
      var raw := BaselineScore - HighRiskPenalty * h - MediumRiskPenalty * m + LowRiskBonus * l;
      && h <= 4 && m <= 4 && l <= 4
      && -13 <= raw <= 95
      && FallbackScore(text) == Clamp(raw)
      && FallbackScore(text) == (if raw < 0 then 0 else raw)
  {
    var lowered := JsLower(text);
    var afterHigh := ApplyPhrases(BaselineScore, lowered, HighRiskPhrases, -HighRiskPenalty);
    var afterMedium := ApplyPhrases(afterHigh, lowered, MediumRiskPhrases, -MediumRiskPenalty);
    ApplyPhrasesCounts(BaselineScore, lowered, HighRiskPhrases, -HighRiskPenalty);
    ApplyPhrasesCounts(afterHigh, lowered, MediumRiskPhrases, -MediumRiskPenalty);
    ApplyPhrasesCounts(afterMedium, lowered, LowRiskPhrases, LowRiskBonus);
    var h := |PresentPhrases(lowered, HighRiskPhrases)|;
    var m := |PresentPhrases(lowered, MediumRiskPhrases)|;
    var l := |PresentPhrases(lowered, LowRiskPhrases)|;
    RawRange(h, m, l);
    var raw := BaselineScore - HighRiskPenalty * h - MediumRiskPenalty * m + LowRiskBonus * l;
    assert FallbackScore(text) == Clamp(raw);
    ClampAtMostHundred(raw);
  }

  /** Below 100 only the lower bound of the clamp acts. */
  lemma ClampAtMostHundred(x: int)
    requires x <= 100
    ensures Clamp(x) == if x < 0 then 0 else x
  {
  }

  /** The range of the unclamped heuristic for at most four phrases per list. */
  lemma RawRange(h: nat, m: nat, l: nat)
    requires h <= 4 && m <= 4 && l <= 4
    ensures -13 <= BaselineScore - HighRiskPenalty * h - MediumRiskPenalty * m + LowRiskBonus * l <= 95
  {
  }

  /** Only the presence of each phrase matters: texts in which the same phrases occur (in any
      number, case or position) get the same fallback score. */
  lemma FallbackDependsOnPresenceOnly(t1: string, t2: string)
    requires forall p :: p in HighRiskPhrases + MediumRiskPhrases + LowRiskPhrases ==>
               (Contains(JsLower(t1), p) <==> Contains(JsLower(t2), p))
    ensures FallbackScore(t1) == FallbackScore(t2)
  {
    var l1, l2 := JsLower(t1), JsLower(t2);
    ApplyPhrasesPresence(BaselineScore, l1, l2, HighRiskPhrases, -HighRiskPenalty);
    var h := ApplyPhrases(BaselineScore, l1, HighRiskPhrases, -HighRiskPenalty);
    ApplyPhrasesPresence(h, l1, l2, MediumRiskPhrases, -MediumRiskPenalty);
    var m := ApplyPhrases(h, l1, MediumRiskPhrases, -MediumRiskPenalty);
    ApplyPhrasesPresence(m, l1, l2, LowRiskPhrases, LowRiskBonus);
  }

  /** `extractScore(analysis)`. */
  function ExtractScore(text: string): (r: nat)
    ensures r <= 100
  {
    match Ladder(ScorePatterns, text)
    case Some(n) => n
    case None => FallbackScore(text)
  }

  /** Pattern precedence: the score is the capture of the first pattern whose leftmost match
      captures a value in [0, 100]; only when there is none does the heuristic decide. */
  lemma ExtractScorePrecedence(text: string)
    ensures forall k :: FirstAccepted(ScorePatterns, text, k) ==>
              ExtractScore(text) == Candidate(ScorePatterns[k], text).value
    ensures (forall k :: 0 <= k < |ScorePatterns| ==> !Accepted(Candidate(ScorePatterns[k], text)))
              ==> ExtractScore(text) == FallbackScore(text)
  {
    forall k | FirstAccepted(ScorePatterns, text, k)
      ensures ExtractScore(text) == Candidate(ScorePatterns[k], text).value
    {
      var r := Ladder(ScorePatterns, text);
      assert r.Some?;
      var k' :| FirstAccepted(ScorePatterns, text, k') && Candidate(ScorePatterns[k'], text) == r;
      FirstAcceptedUnique(ScorePatterns, text, k, k');
    }
  }

  /** The greedy scan of the first pattern over `score:`, a whitespace run and a digit run. */
  lemma ScoreLabelScan(text: string, ws: string, digits: string, rest: string)
    requires text == "score:" + ws + digits + rest
    requires AllWs(ws) && |digits| > 0 && AllDigits(digits)
    requires rest == [] || !IsDigit(rest[0])
    ensures Greedy(ScorePatterns[0].Tokens(), true, text, 0)
            == Some([0, 6, 6 + |ws|, 6 + |ws| + |digits|])
  {
    var toks := ScorePatterns[0].Tokens();
    var a, b, e := 6, 6 + |ws|, 6 + |ws| + |digits|;
    assert text[..a] == "score:";
    assert text[a..b] == ws;
    assert text[b..e] == digits;
    assert e < |text| ==> text[e] == rest[0];
    assert text[b] == digits[0];
    WsEndOfRun(text, a, b);
    DigitsEndOfRun(text, b, e);
    assert LitMatches(text[0..a], "score:", true);
    var t1 := toks[1..];
    var t2 := t1[1..];
    assert toks == [Lit("score:"), Spaces, Digits] && t1 == [Spaces, Digits] && t2 == [Digits];
    assert t2[1..] == [];
    assert TokenEnd(Digits, true, text, b) == Some(e);
    GreedyStep(t2, true, text, b, e, [e]);
    assert [b] + [e] == [b, e];
    assert TokenEnd(Spaces, true, text, a) == Some(b);
    GreedyStep(t1, true, text, a, b, [b, e]);
    assert [a] + [b, e] == [a, b, e];
    assert TokenEnd(Lit("score:"), true, text, 0) == Some(a);
    GreedyStep(toks, true, text, 0, a, [a, b, e]);
    assert [0] + [a, b, e] == [0, a, b, e];
  }

  /** The capture of the first pattern on a text that opens with `score:`, optional
      whitespace and a run of digits. */
  lemma ScoreLabelCandidate(text: string, ws: string, digits: string, rest: string)
    requires text == "score:" + ws + digits + rest
    requires AllWs(ws) && |digits| > 0 && AllDigits(digits)
    requires rest == [] || !IsDigit(rest[0])
    ensures Candidate(ScorePatterns[0], text) == Some(DigitsValue(digits))
  {
    var c := [0, 6, 6 + |ws|, 6 + |ws| + |digits|];
    ScoreLabelScan(text, ws, digits, rest);
    assert FirstMatch(ScorePatterns[0], text) == Some(c);
    assert text[c[2]..c[3]] == digits;
  }

  /** A text that opens with `score:`, optional whitespace and a run of digits: the first
      pattern's leftmost match is there, whatever follows. Its value is the score when it is at
      most 100; otherwise the first pattern is abandoned (later `score:` labels are not
      searched) and the remaining patterns or the heuristic decide. */
  lemma ScoreLabelAtStart(ws: string, digits: string, rest: string)
    requires AllWs(ws) && |digits| > 0 && AllDigits(digits)
    requires rest == [] || !IsDigit(rest[0])
    ensures var text := "score:" + ws + digits + rest;
      Candidate(ScorePatterns[0], text) == Some(DigitsValue(digits))
    ensures var text := "score:" + ws + digits + rest;
      DigitsValue(digits) <= 100 ==> ExtractScore(text) == DigitsValue(digits)
    ensures var text := "score:" + ws + digits + rest;
      DigitsValue(digits) > 100 ==>
        ExtractScore(text) == match Ladder(ScorePatterns[1..], text)
                              case Some(n) => n
                              case None => FallbackScore(text)
  {
    var text := "score:" + ws + digits + rest;
    ScoreLabelCandidate(text, ws, digits, rest);
    assert Ladder(ScorePatterns, text) == if DigitsValue(digits) <= 100
      then Some(DigitsValue(digits)) else Ladder(ScorePatterns[1..], text);
  }

  /* ---- The examples of the comment in `extractScore` ---- */

  /** A pattern whose leading token can start nowhere in the text has no match. */
  lemma NoMatchWhenFirstTokenFails(p: Pattern, text: string)
    requires forall k :: 0 <= k <= |text| ==> TokenEnd(p.Tokens()[0], p.ignoreCase, text, k).None?
    ensures Candidate(p, text) == None
  {
    var toks := p.Tokens();
    forall k | 0 <= k <= |text| ensures Greedy(toks, p.ignoreCase, text, k).None? {
      assert TokenEnd(toks[0], p.ignoreCase, text, k).None?;
    }
  }

  /** Pattern `k` captures `n` in [0, 100] and no earlier pattern matches: the score is `n`. */
  lemma ExtractScoreAt(text: string, k: nat, n: nat)
    requires k < |ScorePatterns| && n <= 100 && Candidate(ScorePatterns[k], text) == Some(n)
    requires forall j :: 0 <= j < k ==> Candidate(ScorePatterns[j], text).None?
    ensures ExtractScore(text) == n
  {
    assert FirstAccepted(ScorePatterns, text, k);
    ExtractScorePrecedence(text);
  }

  /** "score: 85" scores 85. */
  lemma LabelExample(text: string)
    requires text == "score: 85"
    ensures ExtractScore(text) == 85
  {
    var ws, digits := text[6..7], text[7..];
    assert ws == " " && digits == "85" && text[..6] == "score:";
    assert text == text[..6] + ws + digits;
    assert text == "score:" + ws + digits + [];
    ScoreLabelCandidate(text, ws, digits, []);
    assert DigitsValue("85") == 85;
    ExtractScoreAt(text, 0, 85);
  }

  /** No `score:` in "rating: 72/100": it has no letter s. */
  lemma RatingHasNoLabel(text: string)
    requires text == "rating: 72/100"
    ensures Candidate(ScorePatterns[0], text) == None
  {
    forall k | 0 <= k <= |text| ensures TokenEnd(Lit("score:"), true, text, k).None? {
      if k + 6 <= |text| {
        assert text[k..k + 6][0] == text[k];
        assert text[k] in text;
      }
    }
    NoMatchWhenFirstTokenFails(ScorePatterns[0], text);
  }

  /** The second pattern's greedy scan of "rating: 72/100". */
  lemma RatingScan(text: string)
    requires text == "rating: 72/100"
    ensures Greedy(ScorePatterns[1].Tokens(), true, text, 0) == Some([0, 7, 8, 10, 14])
  {
    var t0 := ScorePatterns[1].Tokens();
    var t1, t2, t3 := t0[1..], t0[2..], t0[3..];
    assert t0 == [Lit("rating:"), Spaces, Digits, Lit("/100")];
    assert t1 == [Spaces, Digits, Lit("/100")] && t1[1..] == t2;
    assert t2 == [Digits, Lit("/100")] && t2[1..] == t3;
    assert t3 == [Lit("/100")] && t3[1..] == [];
    assert text[0..7] == "rating:" && text[10..14] == "/100";
    WsEndOfRun(text, 7, 8);
    DigitsEndOfRun(text, 8, 10);
    GreedyStep(t3, true, text, 10, 14, [14]);
    assert [10] + [14] == [10, 14];
    GreedyStep(t2, true, text, 8, 10, [10, 14]);
    assert [8] + [10, 14] == [8, 10, 14];
    GreedyStep(t1, true, text, 7, 8, [8, 10, 14]);
    assert [7] + [8, 10, 14] == [7, 8, 10, 14];
    GreedyStep(t0, true, text, 0, 7, [7, 8, 10, 14]);
    assert [0] + [7, 8, 10, 14] == [0, 7, 8, 10, 14];
  }

  /** The capture of the second pattern in "rating: 72/100". */
  lemma RatingCandidate(text: string)
    requires text == "rating: 72/100"
    ensures Candidate(ScorePatterns[1], text) == Some(72)
  {
    RatingScan(text);
    assert FirstMatch(ScorePatterns[1], text) == Some([0, 7, 8, 10, 14]);
    assert text[8..10] == "72";
    assert DigitsValue("72") == 72;
  }

  /** "rating: 72/100" scores 72: the first pattern finds no `score:`, the second matches. */
  lemma RatingExample(text: string)
    requires text == "rating: 72/100"
    ensures ExtractScore(text) == 72
  {
    RatingHasNoLabel(text);
    RatingCandidate(text);
    ExtractScoreAt(text, 1, 72);
  }

  /** "score [85]" has `score` without a colon. */
  lemma BracketHasNoLabel(text: string)
    requires text == "score [85]"
    ensures Candidate(ScorePatterns[0], text) == None
  {
    forall k | 0 <= k <= |text| ensures TokenEnd(Lit("score:"), true, text, k).None? {
      if k + 6 <= |text| {
        var piece := text[k..k + 6];
        if k == 0 {
          assert piece[5] == ' ';
        } else {
          assert piece[0] == text[k] && text[k] in text[1..];
        }
      }
    }
    NoMatchWhenFirstTokenFails(ScorePatterns[0], text);
  }

  /** "score [85]" has no `rating:`. */
  lemma BracketHasNoRating(text: string)
    requires text == "score [85]"
    ensures Candidate(ScorePatterns[1], text) == None
  {
    forall k | 0 <= k <= |text| ensures TokenEnd(Lit("rating:"), true, text, k).None? {
      if k + 7 <= |text| {
        var piece := text[k..k + 7];
        if k == 3 {
          assert piece[1] == 'e';
        } else {
          assert piece[0] == text[k] && text[k] in text[..3];
        }
      }
    }
    NoMatchWhenFirstTokenFails(ScorePatterns[1], text);
  }

  /** The third pattern's greedy scan of "score [85]". */
  lemma BracketScan(text: string)
    requires text == "score [85]"
    ensures Greedy(ScorePatterns[2].Tokens(), true, text, 0) == Some([0, 5, 6, 7, 9, 10])
  {
    var t0 := ScorePatterns[2].Tokens();
    var t1, t2, t3, t4 := t0[1..], t0[2..], t0[3..], t0[4..];
    assert t0 == [Lit("score"), Spaces, Lit("["), Digits, Lit("]")];
    assert t1 == [Spaces, Lit("["), Digits, Lit("]")] && t1[1..] == t2;
    assert t2 == [Lit("["), Digits, Lit("]")] && t2[1..] == t3;
    assert t3 == [Digits, Lit("]")] && t3[1..] == t4;
    assert t4 == [Lit("]")] && t4[1..] == [];
    assert text[0..5] == "score" && text[6..7] == "[" && text[9..10] == "]";
    WsEndOfRun(text, 5, 6);
    DigitsEndOfRun(text, 7, 9);
    GreedyStep(t4, true, text, 9, 10, [10]);
    assert [9] + [10] == [9, 10];
    GreedyStep(t3, true, text, 7, 9, [9, 10]);
    assert [7] + [9, 10] == [7, 9, 10];
    GreedyStep(t2, true, text, 6, 7, [7, 9, 10]);
    assert [6] + [7, 9, 10] == [6, 7, 9, 10];
    GreedyStep(t1, true, text, 5, 6, [6, 7, 9, 10]);
    assert [5] + [6, 7, 9, 10] == [5, 6, 7, 9, 10];
    GreedyStep(t0, true, text, 0, 5, [5, 6, 7, 9, 10]);
    assert [0] + [5, 6, 7, 9, 10] == [0, 5, 6, 7, 9, 10];
  }

  /** The capture of the third pattern in "score [85]". */
  lemma BracketCandidate(text: string)
    requires text == "score [85]"
    ensures Candidate(ScorePatterns[2], text) == Some(85)
  {
    BracketScan(text);
    assert FirstMatch(ScorePatterns[2], text) == Some([0, 5, 6, 7, 9, 10]);
    assert text[7..9] == "85";
    assert DigitsValue("85") == 85;
  }

  /** "score [85]" scores 85: `score` without a colon, no `rating:`, then the third pattern. */
  lemma BracketExample(text: string)
    requires text == "score [85]"
    ensures ExtractScore(text) == 85
  {
    BracketHasNoLabel(text);
    BracketHasNoRating(text);
    BracketCandidate(text);
    ExtractScoreAt(text, 2, 85);
  }

  /** A cut vector is the match `text.match(p)` reports: the leftmost start at which `p`
      matches, and there the decomposition backtracking prefers. */
  ghost predicate JsMatch(p: Pattern, text: string, c: seq<nat>) {
    && Preferred(p.Tokens(), p.ignoreCase, text, c)
    && forall k :: 0 <= k < c[0] ==> !MatchesAt(p.Tokens(), p.ignoreCase, text, k)
  }

  lemma {:induction false} LexLeAntisymmetric(a: seq<nat>, b: seq<nat>)
    requires |a| == |b| && LexLe(a, b) && LexLe(b, a)
    ensures a == b
    decreases |a|
  {
    if |a| > 0 {
      LexLeAntisymmetric(a[1..], b[1..]);
      assert a == [a[0]] + a[1..] && b == [b[0]] + b[1..];
    }
  }

  /** For each score pattern, the candidate is the integer in the capture group of the one
      match JavaScript reports, and there is no candidate exactly when nothing matches. */
  lemma CandidateIsJsCapture(k: nat, text: string)
    requires k < |ScorePatterns|
    ensures var p := ScorePatterns[k];
      Candidate(p, text).Some? ==>
        exists c :: JsMatch(p, text, c) && Captured(p, text, c) == Candidate(p, text).value
    ensures var p := ScorePatterns[k];
      forall c, c' :: JsMatch(p, text, c) && JsMatch(p, text, c') ==> c == c'
    ensures var p := ScorePatterns[k];
      Candidate(p, text).None? <==>
        forall i :: 0 <= i <= |text| ==> !MatchesAt(p.Tokens(), p.ignoreCase, text, i)
  {
    var p := ScorePatterns[k];
    var toks, ci := p.Tokens(), p.ignoreCase;
    ScorePatternsWellFormed();
    FirstMatchIsRegexMatch(p, text);
    if FirstMatch(p, text).Some? {
      var c := FirstMatch(p, text).value;
      assert JsMatch(p, text, c);
      assert MatchesAt(toks, ci, text, c[0]);
    }
    forall c, c' | JsMatch(p, text, c) && JsMatch(p, text, c') ensures c == c' {
      assert MatchesAt(toks, ci, text, c[0]) && MatchesAt(toks, ci, text, c'[0]);
      assert c[0] == c'[0];
      LexLeAntisymmetric(c, c');
    }
  }

  datatype RiskLevel = Low | Medium | High

  /** How risky a tier is: high is the riskiest. */
  function Severity(r: RiskLevel): nat {
    match r
    case Low => 0
    case Medium => 1
    case High => 2
  }

  /** The score band the system prompt assigns to each tier (lines 95-98 of the prompt). */
  function BandLow(r: RiskLevel): nat {
    match r
    case High => 0
    case Medium => 41
    case Low => 71
  }

  function BandHigh(r: RiskLevel): nat {
    match r
    case High => 40
    case Medium => 70
    case Low => 100
  }

  /** `determineRiskLevel(analysis, score)`: the text argument is not consulted. */
  function DetermineRiskLevel(analysis: string, score: int): (r: RiskLevel)
    ensures 0 <= score <= 100 ==> BandLow(r) <= score <= BandHigh(r)
  {
    if score <= 40 then High
    else if score <= 70 then Medium
    else Low
  }

  /** The tier of a score in [0, 100] is exactly the prompt's band that contains it. */
  lemma RiskLevelIsBand(analysis: string, score: int, r: RiskLevel)
    requires 0 <= score <= 100
    ensures DetermineRiskLevel(analysis, score) == r <==> BandLow(r) <= score <= BandHigh(r)
  {
  }

  /** A higher score never gives a riskier tier, whatever the analysis texts. */
  lemma RiskLevelMonotone(a1: string, a2: string, s1: int, s2: int)
    requires s1 <= s2
    ensures Severity(DetermineRiskLevel(a2, s2)) <= Severity(DetermineRiskLevel(a1, s1))
  {
  }
}
