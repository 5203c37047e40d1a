/**
 * The fragment of JavaScript regular expressions the score patterns use: fixed literals
 * (optionally case-insensitive), `\s*`, and one capture group `(\d+)`.
 *
 * Two views of matching are given. `Decomposes` is the declarative one: a vector of cut
 * positions that splits a stretch of text into one piece per token. The engine of ECMA-262
 * tries start positions from the left and, at a start, explores greedy quantifiers longest
 * first, so the match it reports is the leftmost start and, there, the lexicographically
 * greatest cut vector. `Greedy` and `Leftmost` are the executable view; the lemmas below prove
 * they return exactly that match for well-formed token lists.
 */
module Patterns {
  import opened Wrappers
  import opened Text

  datatype Token =
    | Lit(lit: string)  // a fixed string
    | Spaces            // `\s*`
    | Digits            // `\d+`

  /** The regular expression `before (\d+) after`, with the `i` flag when `ignoreCase`. */
  datatype Pattern = Pattern(before: seq<Token>, after: seq<Token>, ignoreCase: bool)
  {
    function Tokens(): (toks: seq<Token>)
      ensures |toks| == |before| + 1 + |after|
      ensures toks[|before|] == Digits
    {
      before + [Digits] + after
    }
  }

  /** Character equality, up to ASCII case under the `i` flag. */
  predicate CharMatches(c: char, p: char, ci: bool) {
    if ci then AsciiUpper(c) == AsciiUpper(p) else c == p
  }

  predicate LitMatches(piece: string, lit: string, ci: bool) {
    |piece| == |lit| && forall k :: 0 <= k < |lit| ==> CharMatches(piece[k], lit[k], ci)
  }

  predicate PieceMatches(t: Token, piece: string, ci: bool) {
    match t
    case Lit(s) => LitMatches(piece, s, ci)
    case Spaces => AllWs(piece)
    case Digits => |piece| > 0 && AllDigits(piece)
  }

  /** Piece `k` of `cuts` lies inside `text` and matches token `k`. */
  ghost predicate PieceOk(toks: seq<Token>, ci: bool, text: string, cuts: seq<nat>, k: int)
    requires 0 <= k < |toks| && |cuts| == |toks| + 1
  {
    cuts[k] <= cuts[k + 1] <= |text| && PieceMatches(toks[k], text[cuts[k]..cuts[k + 1]], ci)
  }

  /** `cuts` splits text[cuts[0]..cuts[|toks|]] into one piece per token, each matching its
      token: one way the expression can match at `cuts[0]`. */
  ghost predicate Decomposes(toks: seq<Token>, ci: bool, text: string, cuts: seq<nat>) {
    && |cuts| == |toks| + 1
    && cuts[0] <= |text|
    && forall k :: 0 <= k < |toks| ==> PieceOk(toks, ci, text, cuts, k)
  }

  /** Some way of matching starts at `i`. */
  ghost predicate MatchesAt(toks: seq<Token>, ci: bool, text: string, i: nat) {
    exists c :: Decomposes(toks, ci, text, c) && c[0] == i
  }

  /** Lexicographic order on cut vectors of one length. */
  predicate LexLe(a: seq<nat>, b: seq<nat>)
    requires |a| == |b|
    decreases |a|
  {
    |a| == 0 || a[0] < b[0] || (a[0] == b[0] && LexLe(a[1..], b[1..]))
  }

  /** `c` is the decomposition backtracking finds first at its start: greedy quantifiers are
      tried longest first, so it is the lexicographically greatest one. */
  ghost predicate Preferred(toks: seq<Token>, ci: bool, text: string, c: seq<nat>) {
    && Decomposes(toks, ci, text, c)
    && forall c' :: Decomposes(toks, ci, text, c') && c'[0] == c[0] ==> LexLe(c', c)
  }

  /** No match piece can begin with a whitespace character. */
  predicate NoWsStart(t: Token) {
    match t
    case Lit(s) => |s| > 0 && !IsWs(s[0])
    case Spaces => false
    case Digits => true
  }

  /** No match of `toks` can begin with a digit. */
  predicate NoDigitStart(toks: seq<Token>)
    decreases |toks|
  {
    |toks| > 0 &&
    match toks[0]
    case Lit(s) => |s| > 0 && !IsDigit(s[0])
    case Spaces => NoDigitStart(toks[1..])
    case Digits => false
  }

  /** The quantifier at `k`, if any, is followed by something it cannot swallow. */
  predicate WellFormedAt(toks: seq<Token>, k: int)
    requires 0 <= k < |toks|
  {
    && (toks[k].Spaces? ==> k + 1 < |toks| && NoWsStart(toks[k + 1]))
    && (toks[k].Digits? ==> k + 1 == |toks| || NoDigitStart(toks[k + 1..]))
  }

  /** Every quantifier is followed by something it cannot swallow, so a greedy scan never
      has to give characters back (except a trailing `\d+`, which may end anywhere). */
  predicate WellFormed(toks: seq<Token>) {
    forall k :: 0 <= k < |toks| ==> WellFormedAt(toks, k)
  }

  /** Where token `t` ends when matched greedily from `i`. */
  function TokenEnd(t: Token, ci: bool, text: string, i: nat): (r: Option<nat>)
    requires i <= |text|
    ensures r.Some? ==> i <= r.value <= |text| && PieceMatches(t, text[i..r.value], ci)
  {
    match t
    case Lit(s) =>
      if i + |s| <= |text| && LitMatches(text[i..i + |s|], s, ci) then Some(i + |s|) else None
    case Spaces => Some(WsEnd(text, i))
    case Digits =>
      var j := DigitsEnd(text, i);
      if i < j then Some(j) else None
  }

  lemma DecomposesCons(toks: seq<Token>, ci: bool, text: string, i: nat, c: seq<nat>)
    requires |toks| > 0 && Decomposes(toks[1..], ci, text, c)
    requires i <= c[0] && PieceMatches(toks[0], text[i..c[0]], ci)
    ensures Decomposes(toks, ci, text, [i] + c)
  {
    var c2 := [i] + c;
    forall k | 0 <= k < |toks|
      ensures PieceOk(toks, ci, text, c2, k)
    {
      if k > 0 {
        assert PieceOk(toks[1..], ci, text, c, k - 1);
        assert toks[k] == toks[1..][k - 1];
      }
    }
  }

  lemma DecomposesTail(toks: seq<Token>, ci: bool, text: string, c: seq<nat>)
    requires |toks| > 0 && Decomposes(toks, ci, text, c)
    ensures c[0] <= c[1] <= |text| && PieceMatches(toks[0], text[c[0]..c[1]], ci)
    ensures Decomposes(toks[1..], ci, text, c[1..])
  {
    assert PieceOk(toks, ci, text, c, 0);
    forall k | 0 <= k < |toks| - 1
      ensures PieceOk(toks[1..], ci, text, c[1..], k)
    {
      assert PieceOk(toks, ci, text, c, k + 1);
      assert toks[1..][k] == toks[k + 1];
    }
  }

  /** Matching the tokens greedily from `i`, each quantifier taking as much as it can; the
      result is the vector of cut positions. */
  function Greedy(toks: seq<Token>, ci: bool, text: string, i: nat): (r: Option<seq<nat>>)
    requires i <= |text|
    ensures r.Some? ==> Decomposes(toks, ci, text, r.value) && r.value[0] == i
    decreases |toks|
  {
    if toks == [] then Some([i])
    else
      match TokenEnd(toks[0], ci, text, i)
      case None => None
      case Some(j) =>
        match Greedy(toks[1..], ci, text, j)
        case None => None
        case Some(c) =>
          DecomposesCons(toks, ci, text, i, c);
          Some([i] + c)
  }

  /** One step of the greedy scan. */
  lemma GreedyStep(toks: seq<Token>, ci: bool, text: string, i: nat, j: nat, c: seq<nat>)
    requires i <= |text| && |toks| > 0
    requires TokenEnd(toks[0], ci, text, i) == Some(j)
    requires Greedy(toks[1..], ci, text, j) == Some(c)
    ensures Greedy(toks, ci, text, i) == Some([i] + c)
  {
  }

  /** Any piece a token can match from `i` ends no later than the greedy one. */
  lemma TokenEndMaximal(t: Token, ci: bool, text: string, i: nat, e: nat)
    requires i <= e <= |text| && PieceMatches(t, text[i..e], ci)
    ensures TokenEnd(t, ci, text, i).Some?
    ensures e <= TokenEnd(t, ci, text, i).value
  {
    match t
    case Lit(s) =>
    case Spaces =>
      WsEndMaximal(text, i, e);
    case Digits =>
      assert text[i..e][0] == text[i];
      DigitsEndMaximal(text, i, e);
  }

  /** The greedy decomposition is the one backtracking prefers. */
  lemma {:induction false} GreedyPreferred(toks: seq<Token>, ci: bool, text: string, c': seq<nat>)
    requires Decomposes(toks, ci, text, c')
    requires Greedy(toks, ci, text, c'[0]).Some?
    ensures LexLe(c', Greedy(toks, ci, text, c'[0]).value)
    decreases |toks|
  {
    var c := Greedy(toks, ci, text, c'[0]).value;
    if toks != [] {
      DecomposesTail(toks, ci, text, c');
      TokenEndMaximal(toks[0], ci, text, c'[0], c'[1]);
      var j := TokenEnd(toks[0], ci, text, c'[0]).value;
      assert c == [c'[0]] + Greedy(toks[1..], ci, text, j).value;
      if c'[1] == j {
        GreedyPreferred(toks[1..], ci, text, c'[1..]);
        assert c[1..] == Greedy(toks[1..], ci, text, j).value;
      }
    }
  }

  lemma CharMatchesKeepsClass(c: char, p: char, ci: bool)
    requires CharMatches(c, p, ci)
    ensures IsDigit(c) ==> IsDigit(p)
    ensures IsWs(c) ==> IsWs(p)
  {
  }

  lemma NoDigitStartChar(toks: seq<Token>, ci: bool, text: string, c: seq<nat>)
    requires NoDigitStart(toks) && Decomposes(toks, ci, text, c)
    ensures c[0] < |text| && !IsDigit(text[c[0]])
    decreases |toks|
  {
    DecomposesTail(toks, ci, text, c);
    match toks[0]
    case Lit(s) =>
      assert text[c[0]..c[1]][0] == text[c[0]];
      CharMatchesKeepsClass(text[c[0]], s[0], ci);
    case Spaces =>
      if c[0] < c[1] {
        assert text[c[0]..c[1]][0] == text[c[0]];
      } else {
        NoDigitStartChar(toks[1..], ci, text, c[1..]);
      }
  }

  lemma NoWsStartChar(t: Token, ci: bool, text: string, i: nat, j: nat)
    requires NoWsStart(t) && i <= j <= |text| && PieceMatches(t, text[i..j], ci)
    ensures i < |text| && !IsWs(text[i])
  {
    assert text[i..j][0] == text[i];
    match t
    case Lit(s) =>
      CharMatchesKeepsClass(text[i], s[0], ci);
    case Digits =>
  }

  lemma WellFormedTail(toks: seq<Token>)
    requires |toks| > 0 && WellFormed(toks)
    ensures WellFormed(toks[1..])
  {
    var tail := toks[1..];
    forall k | 0 <= k < |tail|
      ensures WellFormedAt(tail, k)
    {
      assert WellFormedAt(toks, k + 1);
      assert tail[k] == toks[k + 1];
      if k + 1 < |tail| {
        assert tail[k + 1] == toks[k + 2];
        assert tail[k + 1..] == toks[k + 2..];
      }
    }
  }

  /** Greedy matching never misses: for a well-formed token list it succeeds wherever some
      decomposition exists. */
  lemma {:induction false} GreedyComplete(toks: seq<Token>, ci: bool, text: string, c': seq<nat>)
    requires WellFormed(toks)
    requires Decomposes(toks, ci, text, c')
    ensures Greedy(toks, ci, text, c'[0]).Some?
    decreases |toks|
  {
    if toks != [] {
      DecomposesTail(toks, ci, text, c');
      TokenEndMaximal(toks[0], ci, text, c'[0], c'[1]);
      var j := TokenEnd(toks[0], ci, text, c'[0]).value;
      WellFormedTail(toks);
      assert WellFormedAt(toks, 0);
      if toks[0].Digits? && |toks| == 1 {
        assert Greedy(toks[1..], ci, text, j) == Some([j]);
      } else {
        if c'[1] < j {
          assert text[c'[0]..j][c'[1] - c'[0]] == text[c'[1]];
          if toks[0].Spaces? {
            assert AllWs(text[c'[0]..j]);
            DecomposesTail(toks[1..], ci, text, c'[1..]);
            NoWsStartChar(toks[1], ci, text, c'[1], c'[2]);
          } else if toks[0].Digits? {
            assert AllDigits(text[c'[0]..j]);
            assert toks[1..] == toks[0 + 1..];
            NoDigitStartChar(toks[1..], ci, text, c'[1..]);
          }
        }
        GreedyComplete(toks[1..], ci, text, c'[1..]);
      }
    }
  }

  /** The leftmost start, at or after `from`, where the greedy scan succeeds. */
  function Leftmost(toks: seq<Token>, ci: bool, text: string, from: nat): (r: Option<seq<nat>>)
    requires from <= |text|
    ensures r.Some? ==> |r.value| == |toks| + 1 && from <= r.value[0] <= |text|
    ensures r.Some? ==> Greedy(toks, ci, text, r.value[0]) == r
    ensures forall k :: from <= k <= |text| && (r.None? || k < r.value[0]) ==>
              Greedy(toks, ci, text, k).None?
    decreases |text| - from
  {
    var g := Greedy(toks, ci, text, from);
    if g.Some? then g
    else if from == |text| then None
    else Leftmost(toks, ci, text, from + 1)
  }

  /** `text.match(p)`: the cut vector of the match JavaScript reports, if any. */
  function FirstMatch(p: Pattern, text: string): (r: Option<seq<nat>>)
    ensures r.Some? ==> Decomposes(p.Tokens(), p.ignoreCase, text, r.value)
  {
    Leftmost(p.Tokens(), p.ignoreCase, text, 0)
  }

  /** For a well-formed pattern `FirstMatch` is the regex engine's answer: the leftmost start
      at which the pattern matches at all, with the decomposition backtracking prefers there;
      and there is no answer exactly when the pattern matches nowhere. */
  lemma FirstMatchIsRegexMatch(p: Pattern, text: string)
    requires WellFormed(p.Tokens())
    ensures FirstMatch(p, text).Some? ==>
              && Preferred(p.Tokens(), p.ignoreCase, text, FirstMatch(p, text).value)
              && forall k :: 0 <= k < FirstMatch(p, text).value[0] ==>
                   !MatchesAt(p.Tokens(), p.ignoreCase, text, k)
    ensures FirstMatch(p, text).None? ==>
              forall k :: 0 <= k <= |text| ==> !MatchesAt(p.Tokens(), p.ignoreCase, text, k)
  {
    var toks, ci := p.Tokens(), p.ignoreCase;
    var r := FirstMatch(p, text);
    forall c' | Decomposes(toks, ci, text, c')
      ensures Greedy(toks, ci, text, c'[0]).Some?
      ensures r.Some? && c'[0] == r.value[0] ==> LexLe(c', r.value)
    {
      GreedyComplete(toks, ci, text, c');
      GreedyPreferred(toks, ci, text, c');
    }
  }

  /** The integer the capture group `(\d+)` holds in the match `c`. */
  function Captured(p: Pattern, text: string, c: seq<nat>): nat
    requires Decomposes(p.Tokens(), p.ignoreCase, text, c)
  {
    var k := |p.before|;
    assert PieceOk(p.Tokens(), p.ignoreCase, text, c, k);
    DigitsValue(text[c[k]..c[k + 1]])
  }

  /** `parseInt(text.match(p)[1])` when the pattern matches. */
  function Candidate(p: Pattern, text: string): Option<nat> {
    match FirstMatch(p, text)
    case None => None
    case Some(c) => Some(Captured(p, text, c))
  }
}
