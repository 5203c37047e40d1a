/**
 * Character classes and string helpers with the meaning JavaScript gives them.
 * Strings are sequences of Unicode scalar values.
 */
module Text {

  /** The set matched by `\s` in a JavaScript regular expression, which is also the set
      `String.prototype.trim` removes: WhiteSpace and LineTerminator of ECMA-262. */
  predicate IsWs(c: char) {
    || c == '\t' || c == '\n' || c == '\U{000B}' || c == '\U{000C}' || c == '\r'
    || c == ' ' || c == '\U{00A0}' || c == '\U{1680}'
    || ('\U{2000}' <= c <= '\U{200A}')
    || c == '\U{2028}' || c == '\U{2029}' || c == '\U{202F}' || c == '\U{205F}'
    || c == '\U{3000}' || c == '\U{FEFF}'
  }

  /** The set matched by `\d` (ASCII digits only, also under the `i` flag). */
  predicate IsDigit(c: char) {
    '0' <= c <= '9'
  }

  predicate AllWs(s: string) {
    forall k :: 0 <= k < |s| ==> IsWs(s[k])
  }

  predicate AllDigits(s: string) {
    forall k :: 0 <= k < |s| ==> IsDigit(s[k])
  }

  /** A string whose `trim()` is non-empty. */
  predicate NonBlank(s: string) {
    exists k :: 0 <= k < |s| && !IsWs(s[k])
  }

  /** ASCII upper-casing: the canonicalisation a non-unicode `i` regex applies when the
      pattern character is ASCII. */
  function AsciiUpper(c: char): (u: char)
    ensures IsDigit(c) || IsWs(c) ==> u == c
    ensures 'a' <= c <= 'z' ==> 'A' <= u <= 'Z'
  {
    if 'a' <= c <= 'z' then (c as int - 32) as char else c
  }

  /** The image of `toLowerCase` on one character, exact wherever the image is ASCII:
      'A'..'Z' and the Kelvin sign lower to an ASCII letter; every other character keeps a
      non-ASCII image (or is ASCII already and unchanged). */
  function JsLowerChar(c: char): (l: char)
    ensures 'A' <= c <= 'Z' ==> 'a' <= l <= 'z' && l as int == c as int + 32
    ensures !('A' <= c <= 'Z') && c != '\U{212A}' ==> l == c
  {
    if 'A' <= c <= 'Z' then (c as int + 32) as char
    else if c == '\U{212A}' then 'k'
    else c
  }

  function JsLower(s: string): (r: string)
    ensures |r| == |s|
    ensures forall k :: 0 <= k < |s| ==> r[k] == JsLowerChar(s[k])
  {
    seq(|s|, k requires 0 <= k < |s| => JsLowerChar(s[k]))
  }

  /** `p` occurs in `t` at index `k`. */
  predicate OccursAt(t: string, p: string, k: int) {
    0 <= k && k + |p| <= |t| && t[k..k + |p|] == p
  }

  /** `t.includes(p)`, by scanning from the left. */
  predicate Contains(t: string, p: string)
    decreases |t|
  {
    (|p| <= |t| && t[..|p|] == p) || (|t| > 0 && Contains(t[1..], p))
  }

  /** `Contains` agrees with the positional definition of a substring occurrence. */
  lemma {:induction false} ContainsIff(t: string, p: string)
    ensures Contains(t, p) <==> exists k :: OccursAt(t, p, k)
    decreases |t|
  {
    if Contains(t, p) {
      if |p| <= |t| && t[..|p|] == p {
        assert OccursAt(t, p, 0);
      } else {
        ContainsIff(t[1..], p);
        var k :| OccursAt(t[1..], p, k);
        forall j | 0 <= j < |p| ensures t[k + 1 + j] == p[j] {
          assert t[1..][k..k + |p|][j] == p[j];
        }
        assert OccursAt(t, p, k + 1);
      }
    }
    if exists k :: OccursAt(t, p, k) {
      var k :| OccursAt(t, p, k);
      if k == 0 {
        assert t[..|p|] == t[0..|p|];
      } else {
        forall j | 0 <= j < |p| ensures t[1..][k - 1 + j] == p[j] {
          assert t[k..k + |p|][j] == p[j];
        }
        assert OccursAt(t[1..], p, k - 1);
        ContainsIff(t[1..], p);
      }
    }
  }

  /** The decimal value of a run of ASCII digits: `parseInt` on a string of digits. */
  function DigitsValue(s: string): nat
    requires AllDigits(s)
    decreases |s|
  {
    if s == [] then 0
    else DigitsValue(s[..|s| - 1]) * 10 + (s[|s| - 1] as int - '0' as int)
  }

  /** End of the maximal whitespace run that starts at `i`. */
  function WsEnd(s: string, i: nat): (j: nat)
    requires i <= |s|
    ensures i <= j <= |s|
    ensures AllWs(s[i..j])
    ensures j == |s| || !IsWs(s[j])
    decreases |s| - i
  {
    if i < |s| && IsWs(s[i]) then WsEnd(s, i + 1) else i
  }

  /** End of the maximal run of non-whitespace characters that starts at `i`. */
  function WordEnd(s: string, i: nat): (j: nat)
    requires i <= |s|
    ensures i <= j <= |s|
    ensures forall k :: i <= k < j ==> !IsWs(s[k])
    ensures j == |s| || IsWs(s[j])
    decreases |s| - i
  {
    if i < |s| && !IsWs(s[i]) then WordEnd(s, i + 1) else i
  }

  /** End of the maximal digit run that starts at `i`. */
  function DigitsEnd(s: string, i: nat): (j: nat)
    requires i <= |s|
    ensures i <= j <= |s|
    ensures AllDigits(s[i..j])
    ensures j == |s| || !IsDigit(s[j])
    decreases |s| - i
  {
    if i < |s| && IsDigit(s[i]) then DigitsEnd(s, i + 1) else i
  }

  /** `WsEnd` stops exactly at the end of a whitespace run followed by a non-space. */
  lemma {:induction false} WsEndOfRun(s: string, i: nat, j: nat)
    requires i <= j <= |s| && AllWs(s[i..j]) && (j == |s| || !IsWs(s[j]))
    ensures WsEnd(s, i) == j
    decreases j - i
  {
    if i < j {
      assert s[i..j][0] == s[i];
      assert s[i + 1..j] == s[i..j][1..];
      WsEndOfRun(s, i + 1, j);
    }
  }

  /** `DigitsEnd` stops exactly at the end of a digit run followed by a non-digit. */
  lemma {:induction false} DigitsEndOfRun(s: string, i: nat, j: nat)
    requires i <= j <= |s| && AllDigits(s[i..j]) && (j == |s| || !IsDigit(s[j]))
    ensures DigitsEnd(s, i) == j
    decreases j - i
  {
    if i < j {
      assert s[i..j][0] == s[i];
      assert s[i + 1..j] == s[i..j][1..];
      DigitsEndOfRun(s, i + 1, j);
    }
  }

  /** A whitespace run from `i` ends no later than `WsEnd`. */
  lemma {:induction false} WsEndMaximal(s: string, i: nat, e: nat)
    requires i <= e <= |s| && AllWs(s[i..e])
    ensures e <= WsEnd(s, i)
    decreases e - i
  {
    if i < e {
      assert s[i..e][0] == s[i];
      assert s[i + 1..e] == s[i..e][1..];
      WsEndMaximal(s, i + 1, e);
    }
  }

  /** A digit run from `i` ends no later than `DigitsEnd`. */
  lemma {:induction false} DigitsEndMaximal(s: string, i: nat, e: nat)
    requires i <= e <= |s| && AllDigits(s[i..e])
    ensures e <= DigitsEnd(s, i)
    decreases e - i
  {
    if i < e {
      assert s[i..e][0] == s[i];
      assert s[i + 1..e] == s[i..e][1..];
      DigitsEndMaximal(s, i + 1, e);
    }
  }
}
