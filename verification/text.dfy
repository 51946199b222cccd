/**
 * Character classes and string helpers with the meaning JavaScript gives them
 * (regular expressions without the `u` flag, `trim`, `indexOf`, `toLowerCase`
 * restricted to ASCII).
 */
module Text {

  /** LineTerminator: the characters a regular-expression `.` refuses to match. */
  predicate IsLineTerminator(c: char) {
    c == '\n' || c == '\r' || c == '\U{2028}' || c == '\U{2029}'
  }

  predicate NotLineTerminator(c: char) {
    !IsLineTerminator(c)
  }

  /** The class `\s` (WhiteSpace and LineTerminator); also what `trim()` removes. */
  predicate IsSpace(c: char) {
    || c == '\t' || c == '\n' || c == '\U{000B}' || c == '\U{000C}' || c == '\r' || c == ' '
    || c == '\U{00A0}' || c == '\U{1680}' || ('\U{2000}' <= c <= '\U{200A}')
    || c == '\U{2028}' || c == '\U{2029}' || c == '\U{202F}' || c == '\U{205F}'
    || c == '\U{3000}' || c == '\U{FEFF}'
  }

  /** The class `[ \t]`. */
  predicate IsBlank(c: char) {
    c == ' ' || c == '\t'
  }

  /** The class `\w`. */
  predicate IsWordChar(c: char) {
    ('a' <= c <= 'z') || ('A' <= c <= 'Z') || ('0' <= c <= '9') || c == '_'
  }

  /** The class `[一-龥_a-zA-Z0-9]` used for method and label names. */
  predicate IsNameChar(c: char) {
    IsWordChar(c) || ('\U{4E00}' <= c <= '\U{9FA5}')
  }

  predicate AllNameChars(s: string) {
    forall i :: 0 <= i < |s| ==> IsNameChar(s[i])
  }

  predicate AllWordChars(s: string) {
    forall i :: 0 <= i < |s| ==> IsWordChar(s[i])
  }

  predicate NoLineTerminator(s: string) {
    forall i :: 0 <= i < |s| ==> !IsLineTerminator(s[i])
  }

  /** `toLowerCase` on one character, ASCII letters only. */
  function LowerChar(c: char): char {
    if 'A' <= c <= 'Z' then (c as int + 32) as char else c
  }

  function Lower(s: string): (r: string)
    ensures |r| == |s|
    ensures forall i :: 0 <= i < |s| ==> r[i] == LowerChar(s[i])
  {
    seq(|s|, i requires 0 <= i < |s| => LowerChar(s[i]))
  }

  /** Case-insensitive (ASCII) prefix test against a lower-case word. */
  predicate StartsWithCI(s: string, word: string) {
    |word| <= |s| && forall i :: 0 <= i < |word| ==> LowerChar(s[i]) == word[i]
  }

  /** Case-insensitive (ASCII) suffix test against a lower-case word. */
  predicate EndsWithCI(s: string, word: string) {
    |word| <= |s| && forall i :: 0 <= i < |word| ==> LowerChar(s[|s| - |word| + i]) == word[i]
  }

  /** The end of the longest run of characters satisfying `p` that starts at `i`. */
  function RunEnd(s: string, i: nat, p: char -> bool): (e: nat)
    requires i <= |s|
    ensures i <= e <= |s|
    ensures forall k :: i <= k < e ==> p(s[k])
    ensures e == |s| || !p(s[e])
    decreases |s| - i
  {
    if i == |s| || !p(s[i]) then i else RunEnd(s, i + 1, p)
  }

  /** Any `e` that closes a run of `p` started at `i` is where the run ends. */
  lemma {:induction false} RunEndUnique(s: string, i: nat, e: nat, p: char -> bool)
    requires i <= e <= |s|
    requires forall k :: i <= k < e ==> p(s[k])
    requires e == |s| || !p(s[e])
    ensures RunEnd(s, i, p) == e
    decreases e - i
  {
    if i < e {
      RunEndUnique(s, i + 1, e, p);
    }
  }

  /** The start of the longest run of `\s` that ends at `hi` and does not reach below `lo`. */
  function TrailStart(s: string, lo: nat, hi: nat): (b: nat)
    requires lo <= hi <= |s|
    ensures lo <= b <= hi
    ensures forall k :: b <= k < hi ==> IsSpace(s[k])
    ensures b == lo || !IsSpace(s[b - 1])
    decreases hi
  {
    if hi > lo && IsSpace(s[hi - 1]) then TrailStart(s, lo, hi - 1) else hi
  }

  /** `trim()`: drop leading and trailing `\s`. */
  function Trim(s: string): (r: string)
    ensures |r| <= |s|
    ensures |r| > 0 ==> !IsSpace(r[0]) && !IsSpace(r[|r| - 1])
    ensures |r| == 0 <==> forall i :: 0 <= i < |s| ==> IsSpace(s[i])
  {
    var a := RunEnd(s, 0, IsSpace);
    var b := TrailStart(s, a, |s|);
    assert |s[a..b]| == 0 ==> forall i :: 0 <= i < |s| ==> IsSpace(s[i]) by {
      if a == b {
        forall i | 0 <= i < |s| ensures IsSpace(s[i]) {
          if i >= a {
            assert b <= i;
          }
        }
      }
    }
    s[a..b]
  }

  predicate OccursAt(s: string, sub: string, i: nat) {
    i + |sub| <= |s| && s[i..i + |sub|] == sub
  }

  /** The first occurrence of `sub` in `s` at or after `i`, or -1. */
  function IndexOfFrom(s: string, sub: string, i: nat): (r: int)
    requires i <= |s|
    ensures r == -1 || (i <= r && OccursAt(s, sub, r))
    ensures r == -1 ==> forall k :: i <= k <= |s| ==> !OccursAt(s, sub, k)
    ensures r >= 0 ==> forall k :: i <= k < r ==> !OccursAt(s, sub, k)
    decreases |s| - i
  {
    if OccursAt(s, sub, i) then i
    else if i == |s| then -1
    else IndexOfFrom(s, sub, i + 1)
  }

  /** The first position where `sub` occurs in `s`, or -1. */
  function IndexOf(s: string, sub: string): int {
    IndexOfFrom(s, sub, 0)
  }

  /** `sub` occurs somewhere in `s`. */
  predicate Contains(s: string, sub: string) {
    IndexOf(s, sub) >= 0
  }
}
