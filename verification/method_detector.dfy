/**
 * `Parser.detectMethodByLine`: recognise `name(...)` on a normalised line and
 * classify it as a declaration, a single call, or (when the match does not
 * cover the whole line) a list of calls found by deleting `name(` from the raw
 * line and looking again.
 */
module MethodDetector {
  import opened Wrappers
  import opened Text
  import opened Symbols
  import LineDetectors

  /**
   * One match of the method/reference pattern: where the match starts and
   * ends, where the name starts, and the captured groups (name, name with
   * argument list, and whether the `{` group took part).
   */
  datatype RefMatch = RefMatch(start: nat, nameAt: nat, name: string, fullName: string, brace: bool, end: nat)

  /** The lookbehind `(?<!if|while)` (case-insensitive) fails just before `e`. */
  predicate KeywordBefore(t: string, e: nat)
    requires e <= |t|
  {
    EndsWithCI(t[..e], "if") || EndsWithCI(t[..e], "while")
  }

  /** A character the lazy `.*?` may pass over before the first `)`. */
  predicate ArgChar(c: char) {
    c != ')' && !IsLineTerminator(c)
  }

  predicate AllSpace(s: string) {
    forall i :: 0 <= i < |s| ==> IsSpace(s[i])
  }

  /** `fullName` is `name(args)` with no `)` and no line terminator inside `args`. */
  predicate CallText(name: string, fullName: string) {
    && |fullName| >= |name| + 2
    && fullName[..|name|] == name
    && fullName[|name|] == '('
    && fullName[|fullName| - 1] == ')'
    && forall i :: |name| < i < |fullName| - 1 ==> ArgChar(fullName[i])
  }

  /** What may follow the call inside the match: spaces and, when `brace`, one `{`. */
  predicate TailText(u: string, brace: bool) {
    && (forall i :: 0 <= i < |u| ==> IsSpace(u[i]) || u[i] == '{')
    && (brace <==> '{' in u)
  }

  /** The shape every match has. */
  ghost predicate WellShaped(t: string, m: RefMatch) {
    && m.start <= m.nameAt
    && m.nameAt + |m.fullName| <= m.end <= |t|
    && AllSpace(t[m.start..m.nameAt])
    && t[m.nameAt..m.nameAt + |m.fullName|] == m.fullName
    && |m.name| > 0
    && AllNameChars(m.name)
    && !EndsWithCI(m.name, "if")
    && !EndsWithCI(m.name, "while")
    && CallText(m.name, m.fullName)
    && TailText(t[m.nameAt + |m.fullName|..m.end], m.brace)
  }

  lemma SuffixCI(s: string, name: string, word: string)
    requires |name| <= |s| && s[|s| - |name|..] == name
    requires EndsWithCI(name, word)
    ensures EndsWithCI(s, word)
  {
    forall i | 0 <= i < |word| ensures LowerChar(s[|s| - |word| + i]) == word[i] {
      assert s[|s| - |word| + i] == name[|name| - |word| + i];
    }
  }

  /** `\s*(([一-龥_a-zA-Z0-9]+)(?<!if|while)\(.*?\))\s*(\{)?\s*` (flag `i`) tried at `p`. */
  function MatchRefAt(t: string, p: nat): (r: Option<RefMatch>)
    requires p <= |t|
    ensures r.Some? ==> r.value.start == p && WellShaped(t, r.value)
  {
    ScanRefWellShaped(t, p);
    ScanRef(t, p)
  }

  /** The scans the matcher makes from `p`: spaces, the name, its `(`, the arguments, their `)`. */
  function ScanRef(t: string, p: nat): Option<RefMatch>
    requires p <= |t|
  {
    var s := RunEnd(t, p, IsSpace);
    var e := RunEnd(t, s, IsNameChar);
    if s == e || e == |t| || t[e] != '(' || KeywordBefore(t, e) then None
    else
      var k := RunEnd(t, e + 1, ArgChar);
      if k == |t| || t[k] != ')' then None
      else Some(CallMatch(t, p, s, e, k))
  }

  /** The match once its call `t[s..k + 1]` is found: the call, then spaces, an optional `{` and spaces. */
  function CallMatch(t: string, p: nat, s: nat, e: nat, k: nat): (m: RefMatch)
    requires p <= s < e < k < |t|
    requires forall i :: p <= i < s ==> IsSpace(t[i])
    requires forall i :: s <= i < e ==> IsNameChar(t[i])
    requires t[e] == '(' && !KeywordBefore(t, e)
    requires forall i :: e + 1 <= i < k ==> ArgChar(t[i])
    requires t[k] == ')'
    ensures m.start == p && m.nameAt == s && m.name == t[s..e] && m.fullName == t[s..k + 1]
  {
    var a := RunEnd(t, k + 1, IsSpace);
    var brace := a < |t| && t[a] == '{';
    var end := RunEnd(t, if brace then a + 1 else a, IsSpace);
    RefMatch(p, s, t[s..e], t[s..k + 1], brace, end)
  }

  lemma CallMatchShape(t: string, p: nat, s: nat, e: nat, k: nat)
    requires p <= s < e < k < |t|
    requires forall i :: p <= i < s ==> IsSpace(t[i])
    requires forall i :: s <= i < e ==> IsNameChar(t[i])
    requires t[e] == '(' && !KeywordBefore(t, e)
    requires forall i :: e + 1 <= i < k ==> ArgChar(t[i])
    requires t[k] == ')'
    ensures WellShaped(t, CallMatch(t, p, s, e, k))
  {
    var a := RunEnd(t, k + 1, IsSpace);
    var brace := a < |t| && t[a] == '{';
    var b := if brace then a + 1 else a;
    var end := RunEnd(t, b, IsSpace);
    CallMatchTail(t, p, s, e, k, a, end);
    MatchShape(t, p, s, e, k, a, b, end, brace);
  }

  lemma NameShape(t: string, s: nat, e: nat)
    requires s < e <= |t|
    requires forall i :: s <= i < e ==> IsNameChar(t[i])
    requires !KeywordBefore(t, e)
    ensures |t[s..e]| > 0 && AllNameChars(t[s..e])
    ensures !EndsWithCI(t[s..e], "if") && !EndsWithCI(t[s..e], "while")
  {
    var name := t[s..e];
    assert t[..e][|t[..e]| - |name|..] == name;
    if EndsWithCI(name, "if") {
      SuffixCI(t[..e], name, "if");
    }
    if EndsWithCI(name, "while") {
      SuffixCI(t[..e], name, "while");
    }
  }

  lemma CallShape(t: string, s: nat, e: nat, k: nat)
    requires s <= e < k < |t|
    requires t[e] == '(' && t[k] == ')'
    requires forall i :: e + 1 <= i < k ==> ArgChar(t[i])
    ensures CallText(t[s..e], t[s..k + 1])
  {
    var name := t[s..e];
    var full := t[s..k + 1];
    assert full[..|name|] == name;
    assert full[|name|] == t[e];
    assert full[|full| - 1] == t[k];
    forall i | |name| < i < |full| - 1 ensures ArgChar(full[i]) {
      assert full[i] == t[s + i];
    }
  }

  lemma TailShape(t: string, k: nat, a: nat, b: nat, end: nat, brace: bool)
    requires k <= a <= |t|
    requires forall i :: k <= i < a ==> IsSpace(t[i])
    requires brace <==> a < |t| && t[a] == '{'
    requires b == if brace then a + 1 else a
    requires b <= end <= |t|
    requires forall i :: b <= i < end ==> IsSpace(t[i])
    ensures TailText(t[k..end], brace)
  {
    var u := t[k..end];
    forall i | 0 <= i < |u| ensures IsSpace(u[i]) || u[i] == '{' {
      assert u[i] == t[k + i];
    }
    if brace {
      assert u[a - k] == '{';
    } else {
      forall i | 0 <= i < |u| ensures u[i] != '{' {
        assert u[i] == t[k + i];
      }
    }
  }


  lemma MatchShape(t: string, p: nat, s: nat, e: nat, k: nat, a: nat, b: nat, end: nat, brace: bool)
    requires p <= s < e < k < a <= |t|
    requires forall i :: p <= i < s ==> IsSpace(t[i])
    requires forall i :: s <= i < e ==> IsNameChar(t[i])
    requires t[e] == '(' && !KeywordBefore(t, e)
    requires forall i :: e + 1 <= i < k ==> ArgChar(t[i])
    requires t[k] == ')'
    requires a <= |t| && forall i :: k + 1 <= i < a ==> IsSpace(t[i])
    requires brace <==> a < |t| && t[a] == '{'
    requires b == if brace then a + 1 else a
    requires b <= end <= |t|
    requires forall i :: b <= i < end ==> IsSpace(t[i])
    ensures WellShaped(t, RefMatch(p, s, t[s..e], t[s..k + 1], brace, end))
  {
    NameShape(t, s, e);
    CallShape(t, s, e, k);
    TailShape(t, k + 1, a, b, end, brace);
    assert AllSpace(t[p..s]) by {
      forall i | 0 <= i < s - p ensures IsSpace(t[p..s][i]) {
        assert t[p..s][i] == t[p + i];
      }
    }
    assert s + |t[s..k + 1]| == k + 1;
  }

  /**
   * The match the pattern makes at `m.start`, stated by its positions: spaces
   * up to the name at `m.nameAt`, name characters up to a `(` that no `if` or
   * `while` precedes, argument characters up to the first `)`, the longest
   * run of spaces up to `a`, a `{` at `a` exactly when `m.brace`, and the
   * longest run of spaces after it up to `m.end`.
   */
  predicate RefShape(t: string, m: RefMatch, e: nat, k: nat, a: nat) {
    var s := m.nameAt;
    var b := if m.brace then a + 1 else a;
    && m.start <= s < e < k < a <= |t|
    && (forall i :: m.start <= i < s ==> IsSpace(t[i]))
    && (forall i :: s <= i < e ==> IsNameChar(t[i]))
    && m.name == t[s..e]
    && t[e] == '(' && !KeywordBefore(t, e)
    && (forall i :: e < i < k ==> ArgChar(t[i]))
    && t[k] == ')'
    && m.fullName == t[s..k + 1]
    && (forall i :: k < i < a ==> IsSpace(t[i]))
    && (a == |t| || !IsSpace(t[a]))
    && (m.brace <==> a < |t| && t[a] == '{')
    && b <= m.end <= |t|
    && (forall i :: b <= i < m.end ==> IsSpace(t[i]))
    && (m.end == |t| || !IsSpace(t[m.end]))
  }

  /** The pattern, tried at `p`, produces `m`. */
  ghost predicate RefMatchShapeAt(t: string, p: nat, m: RefMatch) {
    m.start == p && exists e: nat, k: nat, a: nat :: RefShape(t, m, e, k, a)
  }

  /** `MatchRefAt` finds exactly the match the pattern makes at `p`. */
  lemma MatchRefAtSpec(t: string, p: nat, m: RefMatch)
    requires p <= |t|
    ensures MatchRefAt(t, p) == Some(m) <==> RefMatchShapeAt(t, p, m)
  {
    if ScanRef(t, p) == Some(m) {
      ScanRefSound(t, p);
    }
    if RefMatchShapeAt(t, p, m) {
      var e: nat, k: nat, a: nat :| RefShape(t, m, e, k, a);
      ScanRefComplete(t, m, e, k, a);
    }
  }

  lemma ScanRefWellShaped(t: string, p: nat)
    requires p <= |t|
    ensures ScanRef(t, p).Some? ==> ScanRef(t, p).value.start == p && WellShaped(t, ScanRef(t, p).value)
  {
    if ScanRef(t, p).Some? {
      var s := RunEnd(t, p, IsSpace);
      var e := RunEnd(t, s, IsNameChar);
      ScanRefName(t, p);
      ScanRefArgs(t, p, s, e);
      var k := RunEnd(t, e + 1, ArgChar);
      ScanRefCall(t, p, s, e, k);
      CallMatchShape(t, p, s, e, k);
    }
  }

  lemma ScanRefSound(t: string, p: nat)
    requires p <= |t|
    requires ScanRef(t, p).Some?
    ensures RefMatchShapeAt(t, p, ScanRef(t, p).value)
  {
    var s := RunEnd(t, p, IsSpace);
    var e := RunEnd(t, s, IsNameChar);
    ScanRefName(t, p);
    ScanRefArgs(t, p, s, e);
    var k := RunEnd(t, e + 1, ArgChar);
    var a := RunEnd(t, k + 1, IsSpace);
    var brace := a < |t| && t[a] == '{';
    var b := if brace then a + 1 else a;
    var end := RunEnd(t, b, IsSpace);
    ScanRefCall(t, p, s, e, k);
    CallMatchTail(t, p, s, e, k, a, end);
    RefShapeIntro(t, RefMatch(p, s, t[s..e], t[s..k + 1], brace, end), s, e, k, a, b);
  }

  /** When the scans succeed, the name runs to a `(` with no keyword before it. */
  lemma ScanRefName(t: string, p: nat)
    requires p <= |t|
    requires ScanRef(t, p).Some?
    ensures var s := RunEnd(t, p, IsSpace); var e := RunEnd(t, s, IsNameChar);
      s < e < |t| && t[e] == '(' && !KeywordBefore(t, e)
  {
  }

  /** When the scans succeed, the arguments run to a `)`. */
  lemma ScanRefArgs(t: string, p: nat, s: nat, e: nat)
    requires p <= |t|
    requires ScanRef(t, p).Some?
    requires s == RunEnd(t, p, IsSpace) && e == RunEnd(t, s, IsNameChar)
    requires s < e < |t| && t[e] == '(' && !KeywordBefore(t, e)
    ensures RunEnd(t, e + 1, ArgChar) < |t| && t[RunEnd(t, e + 1, ArgChar)] == ')'
  {
  }

  /** The scans read off the positions where the first three of them stop. */
  lemma ScanRefCall(t: string, p: nat, s: nat, e: nat, k: nat)
    requires p <= s < e < k < |t|
    requires RunEnd(t, p, IsSpace) == s && RunEnd(t, s, IsNameChar) == e
    requires t[e] == '(' && !KeywordBefore(t, e)
    requires RunEnd(t, e + 1, ArgChar) == k && t[k] == ')'
    ensures forall i :: p <= i < s ==> IsSpace(t[i])
    ensures forall i :: s <= i < e ==> IsNameChar(t[i])
    ensures forall i :: e + 1 <= i < k ==> ArgChar(t[i])
    ensures ScanRef(t, p) == Some(CallMatch(t, p, s, e, k))
  {
  }

  /** `CallMatch` read off the positions where its two scans stop. */
  lemma CallMatchTail(t: string, p: nat, s: nat, e: nat, k: nat, a: nat, end: nat)
    requires p <= s < e < k < |t|
    requires forall i :: p <= i < s ==> IsSpace(t[i])
    requires forall i :: s <= i < e ==> IsNameChar(t[i])
    requires t[e] == '(' && !KeywordBefore(t, e)
    requires forall i :: e + 1 <= i < k ==> ArgChar(t[i])
    requires t[k] == ')'
    requires RunEnd(t, k + 1, IsSpace) == a
    requires RunEnd(t, if a < |t| && t[a] == '{' then a + 1 else a, IsSpace) == end
    ensures CallMatch(t, p, s, e, k) == RefMatch(p, s, t[s..e], t[s..k + 1], a < |t| && t[a] == '{', end)
  {
  }

  lemma RefShapeIntro(t: string, m: RefMatch, s: nat, e: nat, k: nat, a: nat, b: nat)
    requires m.start <= s < e < k < a <= |t|
    requires forall i :: m.start <= i < s ==> IsSpace(t[i])
    requires forall i :: s <= i < e ==> IsNameChar(t[i])
    requires t[e] == '(' && !KeywordBefore(t, e)
    requires forall i :: e + 1 <= i < k ==> ArgChar(t[i])
    requires t[k] == ')'
    requires forall i :: k + 1 <= i < a ==> IsSpace(t[i])
    requires a == |t| || !IsSpace(t[a])
    requires m.brace <==> a < |t| && t[a] == '{'
    requires b == if m.brace then a + 1 else a
    requires b <= m.end <= |t|
    requires forall i :: b <= i < m.end ==> IsSpace(t[i])
    requires m.end == |t| || !IsSpace(t[m.end])
    requires m.nameAt == s && m.name == t[s..e] && m.fullName == t[s..k + 1]
    ensures RefShape(t, m, e, k, a)
  {
  }

  lemma ScanRefComplete(t: string, m: RefMatch, e: nat, k: nat, a: nat)
    requires RefShape(t, m, e, k, a)
    ensures ScanRef(t, m.start) == Some(m)
  {
    var p := m.start;
    var s := m.nameAt;
    assert m == RefMatch(p, s, t[s..e], t[s..k + 1], a < |t| && t[a] == '{', m.end);
    RefShapeRuns(t, p, s, e, k, a, if m.brace then a + 1 else a, m.end);
    ScanRefAt(t, p, s, e, k, a, m.end);
  }

  /** The scans read off the positions where all five of them stop. */
  lemma ScanRefAt(t: string, p: nat, s: nat, e: nat, k: nat, a: nat, end: nat)
    requires p <= s < e < k < |t|
    requires RunEnd(t, p, IsSpace) == s && RunEnd(t, s, IsNameChar) == e
    requires t[e] == '(' && !KeywordBefore(t, e)
    requires RunEnd(t, e + 1, ArgChar) == k && t[k] == ')'
    requires RunEnd(t, k + 1, IsSpace) == a
    requires RunEnd(t, if a < |t| && t[a] == '{' then a + 1 else a, IsSpace) == end
    ensures ScanRef(t, p) == Some(RefMatch(p, s, t[s..e], t[s..k + 1], a < |t| && t[a] == '{', end))
  {
    ScanRefCall(t, p, s, e, k);
    CallMatchTail(t, p, s, e, k, a, end);
  }

  /** Each scan stops where the shape says its part ends. */
  lemma RefShapeRuns(t: string, p: nat, s: nat, e: nat, k: nat, a: nat, b: nat, end: nat)
    requires p <= s < e < k < a <= |t|
    requires forall i :: p <= i < s ==> IsSpace(t[i])
    requires forall i :: s <= i < e ==> IsNameChar(t[i])
    requires t[e] == '('
    requires forall i :: e < i < k ==> ArgChar(t[i])
    requires t[k] == ')'
    requires forall i :: k < i < a ==> IsSpace(t[i])
    requires a == |t| || !IsSpace(t[a])
    requires b <= end <= |t|
    requires forall i :: b <= i < end ==> IsSpace(t[i])
    requires end == |t| || !IsSpace(t[end])
    ensures RunEnd(t, p, IsSpace) == s && RunEnd(t, s, IsNameChar) == e
    ensures RunEnd(t, e + 1, ArgChar) == k && RunEnd(t, k + 1, IsSpace) == a
    ensures RunEnd(t, b, IsSpace) == end
  {
    assert IsNameChar(t[s]);
    RunEndUnique(t, p, s, IsSpace);
    RunEndUnique(t, s, e, IsNameChar);
    RunEndUnique(t, e + 1, k, ArgChar);
    RunEndUnique(t, k + 1, a, IsSpace);
    RunEndUnique(t, b, end, IsSpace);
  }

  /** The pattern matches at no position in `[p, q)`. */
  predicate NoMatchBetween(t: string, p: nat, q: nat)
    requires q <= |t| + 1
    decreases q - p
  {
    p >= q || (ScanRef(t, p).None? && NoMatchBetween(t, p + 1, q))
  }

  /** The leftmost match at or after `p`. */
  function MatchRefFrom(t: string, p: nat): (r: Option<RefMatch>)
    requires p <= |t|
    ensures r.Some? ==> p <= r.value.start <= |t| && MatchRefAt(t, r.value.start) == r
    ensures r.Some? ==> NoMatchBetween(t, p, r.value.start)
    ensures r.None? ==> NoMatchBetween(t, p, |t| + 1)
    decreases |t| - p
  {
    match MatchRefAt(t, p)
    case Some(m) => Some(m)
    case None => if p == |t| then None else MatchRefFrom(t, p + 1)
  }

  /** `NoMatchBetween` read position by position. */
  lemma {:induction false} NoMatchBetweenAt(t: string, p: nat, q: nat, x: nat)
    requires q <= |t| + 1 && NoMatchBetween(t, p, q)
    requires p <= x < q
    ensures ScanRef(t, x).None?
    decreases x - p
  {
    if p < x {
      NoMatchBetweenAt(t, p + 1, q, x);
    }
  }

  /** The method pattern's match on a line: the one at the leftmost position where it matches, if any. */
  function MatchRef(t: string): (r: Option<RefMatch>)
    ensures r.Some? ==> WellShaped(t, r.value)
    ensures r.Some? ==> r.value.start <= |t| && MatchRefAt(t, r.value.start) == r
    ensures r.Some? ==> forall q :: 0 <= q < r.value.start ==> MatchRefAt(t, q).None?
    ensures r.None? <==> forall q :: 0 <= q <= |t| ==> MatchRefAt(t, q).None?
  {
    var r := MatchRefFrom(t, 0);
    if r.Some? then
      assert forall q :: 0 <= q < r.value.start ==> MatchRefAt(t, q).None? by {
        forall q | 0 <= q < r.value.start ensures MatchRefAt(t, q).None? {
          NoMatchBetweenAt(t, 0, r.value.start, q);
        }
      }
      r
    else
      assert forall q :: 0 <= q <= |t| ==> MatchRefAt(t, q).None? by {
        forall q | 0 <= q <= |t| ensures MatchRefAt(t, q).None? {
          NoMatchBetweenAt(t, 0, |t| + 1, q);
        }
      }
      r
  }

  /**
   * `MatchRef` read against the pattern's shape: it returns a match the
   * pattern makes, no earlier position yields one, and it returns None
   * exactly when no position does.
   */
  lemma MatchRefShape(t: string)
    ensures MatchRef(t).Some? ==> RefMatchShapeAt(t, MatchRef(t).value.start, MatchRef(t).value)
    ensures MatchRef(t).Some? ==>
      forall q: nat, m: RefMatch :: q < MatchRef(t).value.start ==> !RefMatchShapeAt(t, q, m)
    ensures MatchRef(t).None? <==> forall q: nat, m: RefMatch :: q <= |t| ==> !RefMatchShapeAt(t, q, m)
  {
    var r := MatchRef(t);
    if r.Some? {
      MatchRefAtSpec(t, r.value.start, r.value);
      forall q: nat, m: RefMatch | q < r.value.start ensures !RefMatchShapeAt(t, q, m) {
        MatchRefAtSpec(t, q, m);
      }
    } else {
      forall q: nat, m: RefMatch | q <= |t| ensures !RefMatchShapeAt(t, q, m) {
        MatchRefAtSpec(t, q, m);
      }
    }
  }

  /** The match covers the entire normalised line. */
  predicate CoversLine(t: string, m: RefMatch) {
    m.end - m.start == |t|
  }

  // ------------------------------------------------- removing `name(` again

  /** `name\s*\(` occurs at `q`. */
  predicate CallAt(s: string, name: string, q: nat) {
    OccursAt(s, name, q) && var o := RunEnd(s, q + |name|, IsSpace); o < |s| && s[o] == '('
  }

  /** The leftmost `name\s*\(` at or after `p`: its start and the index of its `(`. */
  function FindCall(s: string, name: string, p: nat): (r: Option<(nat, nat)>)
    requires p <= |s|
    ensures r.Some? ==> p <= r.value.0 && CallAt(s, name, r.value.0)
    ensures r.Some? ==> r.value.1 == RunEnd(s, r.value.0 + |name|, IsSpace)
    ensures r.Some? ==> forall q :: p <= q < r.value.0 ==> !CallAt(s, name, q)
    ensures r.None? ==> forall q :: p <= q <= |s| ==> !CallAt(s, name, q)
    decreases |s| - p
  {
    if CallAt(s, name, p) then Some((p, RunEnd(s, p + |name|, IsSpace)))
    else if p == |s| then None
    else FindCall(s, name, p + 1)
  }

  /**
   * The line with its first `name\s*(` deleted, or None when that
   * pattern does not occur (the source then recurses on an unchanged line).
   */
  function RemoveCall(s: string, name: string): (r: Option<string>)
    ensures r.None? <==> forall q :: 0 <= q <= |s| ==> !CallAt(s, name, q)
    ensures r.Some? ==> |r.value| + |name| + 1 <= |s|
  {
    match FindCall(s, name, 0)
    case None => None
    case Some((q, o)) => Some(s[..q] + s[o + 1..])
  }

  /** What `RemoveCall` leaves: the line without its first `name\s*(`. */
  lemma RemoveCallText(s: string, name: string)
    requires RemoveCall(s, name).Some?
    ensures exists q: nat, o: nat :: RemovedAt(s, name, q, o, RemoveCall(s, name).value)
  {
    var (q, o) := FindCall(s, name, 0).value;
    assert RemovedAt(s, name, q, o, RemoveCall(s, name).value);
  }

  /**
   * `rest` is `s` with its first `name\s*(` taken out: the occurrence starts
   * at `q`, only spaces lie between the name and the `(` at `o`, and the text
   * on either side is kept.
   */
  predicate RemovedAt(s: string, name: string, q: nat, o: nat, rest: string) {
    && CallAt(s, name, q)
    && (forall q' :: 0 <= q' < q ==> !CallAt(s, name, q'))
    && q + |name| <= o < |s| && s[o] == '('
    && (forall k :: q + |name| <= k < o ==> IsSpace(s[k]))
    && rest == s[..q] + s[o + 1..]
  }

  // ------------------------------------------------------------ detection

  /** The result kinds of `detectMethodByLine`: `Method`, `Ref`, `Ref[]`, `undefined`, or no result at all. */
  datatype Detection = NoMatch | Decl(decl: Method) | Call(ref: Ref) | Calls(refs: seq<Ref>) | Overflow

  /** A detection as the items handed to `CodeUtil.join`. */
  function AsRefs(d: Detection, path: string): seq<Ref> {
    match d
    case NoMatch => []
    case Decl(m) => [Ref(m.name, path, m.line, m.character)]
    case Call(r) => [r]
    case Calls(rs) => rs
    case Overflow => []
  }

  predicate IsBlankLine(host: Host, doc: Document, j: nat)
    requires j < |doc.lines|
  {
    Trim(host.purify(doc.lines[j])) == ""
  }

  /** The first line at or after `i` whose normalised text is not blank. */
  function NextNonBlank(host: Host, doc: Document, i: nat): (r: Option<nat>)
    ensures r.Some? ==> i <= r.value < |doc.lines| && !IsBlankLine(host, doc, r.value)
    ensures r.Some? ==> forall j :: i <= j < r.value ==> IsBlankLine(host, doc, j)
    ensures r.None? ==> forall j :: i <= j < |doc.lines| ==> IsBlankLine(host, doc, j)
    decreases |doc.lines| - i
  {
    if i >= |doc.lines| then None
    else if !IsBlankLine(host, doc, i) then Some(i)
    else NextNonBlank(host, doc, i + 1)
  }

  /** `^\s*{`. */
  predicate OpensBody(t: string) {
    var a := RunEnd(t, 0, IsSpace);
    a < |t| && t[a] == '{'
  }

  /** The method a full-line match declares. */
  function Declared(doc: Document, line: nat, origin: string, m: RefMatch, withQuote: bool): Method
    requires line < |doc.lines|
  {
    Method(m.fullName, m.name, doc.uri, line, IndexOf(origin, m.name), withQuote,
           LineDetectors.GetRemark(doc, line - 1), None, [])
  }

  /** `Parser.detectMethodByLine(document, line, origin)`. */
  function DetectMethod(host: Host, doc: Document, line: nat, origin: string): (r: Detection)
    requires line < |doc.lines|
    ensures var t := host.purify(origin); var m := MatchRef(t);
      && (m.None? ==> r.NoMatch?)
      && (m.Some? && CoversLine(t, m.value) ==> r.NoMatch? || r.Decl? || r.Call?)
      && (m.Some? && !CoversLine(t, m.value) ==> r.Calls? || r.Overflow?)
      && (r.Decl? ==> r.decl.name == m.value.name && r.decl.fullName == m.value.fullName)
    ensures r.Decl? ==>
      && r.decl.line == line && r.decl.uri == doc.uri && r.decl.endLine.None? && r.decl.variables == []
    decreases |origin|, 1
  {
    var text := host.purify(origin);
    match MatchRef(text)
    case None => NoMatch
    case Some(m) =>
      if !CoversLine(text, m) then SplitCalls(host, doc, line, origin, m)
      else Classify(host, doc, line, origin, m)
  }

  /**
   * A match that is the whole line: a declaration when `{` ends the line or
   * opens the next non-blank line, otherwise a call; nothing when no
   * non-blank line follows a brace-less match.
   */
  function Classify(host: Host, doc: Document, line: nat, origin: string, m: RefMatch): (r: Detection)
    requires line < |doc.lines|
    ensures r.NoMatch? || r.Decl? || r.Call?
    ensures r.Decl? ==>
      && r.decl.name == m.name && r.decl.fullName == m.fullName
      && r.decl.line == line && r.decl.uri == doc.uri && r.decl.withQuote == m.brace
      && r.decl.endLine.None? && r.decl.variables == []
      && r.decl.comment == LineDetectors.GetRemark(doc, line - 1)
    ensures m.brace ==> r.Decl?
    ensures var next := NextNonBlank(host, doc, line + 1);
      && (!m.brace ==> (r.NoMatch? <==> next.None?))
      && (!m.brace && next.Some? ==> (r.Decl? <==> OpensBody(host.purify(doc.lines[next.value]))))
    ensures r.Call? ==> r.ref == Ref(m.name, doc.path, line, IndexOf(origin, m.name))
  {
    if m.brace then Decl(Declared(doc, line, origin, m, true))
    else
      match NextNonBlank(host, doc, line + 1)
      case None => NoMatch
      case Some(j) =>
        if OpensBody(host.purify(doc.lines[j])) then Decl(Declared(doc, line, origin, m, false))
        else Call(Ref(m.name, doc.path, line, IndexOf(origin, m.name)))
  }

  /**
   * A match that is only part of the line: the call itself followed by the
   * references found after deleting `name(` from the raw line, merged by the
   * host; `Overflow` when the deletion finds nothing to delete (the source
   * then recurses without end) or the inner detection overflows.
   */
  function SplitCalls(host: Host, doc: Document, line: nat, origin: string, m: RefMatch): (r: Detection)
    requires line < |doc.lines|
    ensures r.Calls? || r.Overflow?
    ensures RemoveCall(origin, m.name).None? ==> r.Overflow?
    ensures r.Calls? ==> RemoveCall(origin, m.name).Some?
    ensures r.Calls? && Appending(host.joinRefs) ==>
      && |r.refs| > 0 && r.refs[0] == Ref(m.name, doc.path, line, IndexOf(origin, m.name))
      && forall i :: 1 <= i < |r.refs| ==>
           r.refs[i] in AsRefs(DetectMethod(host, doc, line, RemoveCall(origin, m.name).value), doc.path)
    decreases |origin|, 0
  {
    var head := Ref(m.name, doc.path, line, IndexOf(origin, m.name));
    match RemoveCall(origin, m.name)
    case None => Overflow
    case Some(rest) =>
      var inner := DetectMethod(host, doc, line, rest);
      if inner.Overflow? then Overflow
      else
        var refs := host.joinRefs([head], AsRefs(inner, doc.path));
        assert Appending(host.joinRefs) ==> Extends([head], AsRefs(inner, doc.path), refs);
        assert Appending(host.joinRefs) ==> refs[..1] == [head] ==> refs[0] == head;
        Calls(refs)
  }

  /**
   * A match covering the whole normalised line: a `{` after the argument
   * list makes a declaration that opens a level; otherwise nothing when only
   * blank lines follow, a declaration when the next non-blank line opens
   * with `{`, and a call at the name when it does not. A declaration takes
   * the remark of the line above and the name's first column in the raw line.
   */
  lemma DetectWholeLine(host: Host, doc: Document, line: nat, origin: string)
    requires line < |doc.lines|
    requires MatchRef(host.purify(origin)).Some?
    requires CoversLine(host.purify(origin), MatchRef(host.purify(origin)).value)
    ensures var m := MatchRef(host.purify(origin)).value;
      var r := DetectMethod(host, doc, line, origin);
      var next := NextNonBlank(host, doc, line + 1);
      && (m.brace ==> r.Decl?)
      && (!m.brace ==> (r.NoMatch? <==> next.None?))
      && (!m.brace && next.Some? ==> (r.Decl? <==> OpensBody(host.purify(doc.lines[next.value]))))
      && (!m.brace && next.Some? && !OpensBody(host.purify(doc.lines[next.value])) ==>
            r == Call(Ref(m.name, doc.path, line, IndexOf(origin, m.name))))
      && (r.Decl? ==>
            && r.decl.withQuote == m.brace
            && r.decl.comment == LineDetectors.GetRemark(doc, line - 1)
            && r.decl.character == IndexOf(origin, m.name))
  {
    var m := MatchRef(host.purify(origin)).value;
    assert DetectMethod(host, doc, line, origin) == Classify(host, doc, line, origin, m);
  }

  /**
   * A match that leaves part of the normalised line over: the calls the line
   * holds, or the non-terminating case, which happens exactly when there is
   * no `name(` to delete or the detection of the rest does not terminate.
   */
  lemma DetectPartialLine(host: Host, doc: Document, line: nat, origin: string)
    requires line < |doc.lines|
    requires MatchRef(host.purify(origin)).Some?
    requires !CoversLine(host.purify(origin), MatchRef(host.purify(origin)).value)
    ensures var m := MatchRef(host.purify(origin)).value;
      var r := DetectMethod(host, doc, line, origin);
      && (r.Calls? || r.Overflow?)
      && (RemoveCall(origin, m.name).None? ==> r.Overflow?)
      && (RemoveCall(origin, m.name).Some? ==>
            (r.Overflow? <==> DetectMethod(host, doc, line, RemoveCall(origin, m.name).value).Overflow?))
      && (r.Calls? && Appending(host.joinRefs) ==>
            |r.refs| > 0 && r.refs[0] == Ref(m.name, doc.path, line, IndexOf(origin, m.name)))
  {
    var m := MatchRef(host.purify(origin)).value;
    assert DetectMethod(host, doc, line, origin) == SplitCalls(host, doc, line, origin, m);
  }

  /**
   * Every reference one line yields sits on that line, in that document, and
   * carries a non-empty name made of name characters.
   */
  lemma {:induction false} DetectedRefsOnLine(host: Host, doc: Document, line: nat, origin: string)
    requires line < |doc.lines|
    requires Appending(host.joinRefs)
    ensures forall x :: x in AsRefs(DetectMethod(host, doc, line, origin), doc.path) ==> RefOnLine(x, doc, line)
    decreases |origin|, 1
  {
    var text := host.purify(origin);
    var d := DetectMethod(host, doc, line, origin);
    match MatchRef(text)
    case None =>
    case Some(m) =>
      if !CoversLine(text, m) {
        SplitRefsOnLine(host, doc, line, origin, m);
      } else {
        ClassifiedRefsOnLine(host, doc, line, origin, m);
      }
  }

  predicate RefOnLine(x: Ref, doc: Document, line: nat) {
    x.line == line && x.path == doc.path && |x.name| > 0 && AllNameChars(x.name)
  }

  lemma ClassifiedRefsOnLine(host: Host, doc: Document, line: nat, origin: string, m: RefMatch)
    requires line < |doc.lines|
    requires |m.name| > 0 && AllNameChars(m.name)
    ensures forall x :: x in AsRefs(Classify(host, doc, line, origin, m), doc.path) ==> RefOnLine(x, doc, line)
  {
  }

  lemma {:induction false} SplitRefsOnLine(host: Host, doc: Document, line: nat, origin: string, m: RefMatch)
    requires line < |doc.lines|
    requires Appending(host.joinRefs)
    requires |m.name| > 0 && AllNameChars(m.name)
    ensures forall x :: x in AsRefs(SplitCalls(host, doc, line, origin, m), doc.path) ==> RefOnLine(x, doc, line)
    decreases |origin|, 0
  {
    var d := SplitCalls(host, doc, line, origin, m);
    if d.Calls? {
      var rest := RemoveCall(origin, m.name).value;
      var inner := AsRefs(DetectMethod(host, doc, line, rest), doc.path);
      assert forall x :: x in inner ==> RefOnLine(x, doc, line) by {
        DetectedRefsOnLine(host, doc, line, rest);
      }
      forall i | 0 <= i < |d.refs| ensures RefOnLine(d.refs[i], doc, line) {
        if i == 0 {
          assert d.refs[0] == Ref(m.name, doc.path, line, IndexOf(origin, m.name));
        } else {
          assert d.refs[i] in inner;
        }
      }
    }
  }
}
