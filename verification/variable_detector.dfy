/**
 * `Parser.detectVariableByLine` and `Parser.joinVars`: find the names a line
 * assigns (`name = …`, `name += …`, `name := …`) or, failing that, the
 * arguments of a command-style line (`Command, a, b`), and merge found
 * variables into a list without repeating a name.
 */
module VariableDetector {
  import opened Wrappers
  import opened Text
  import opened Symbols

  // ------------------------------------------------------------ assignments

  // The compound-assignment operators that may precede `=`: + - * / . and :
  predicate IsAssignOp(c: char) {
    c == '+' || c == '-' || c == '*' || c == '/' || c == '.' || c == ':'
  }

  /** `=(?![=!]).+`: an `=` at `i` followed by a character that is not `=`, `!` or a line terminator. */
  predicate LoneEqualsAt(t: string, i: nat) {
    i + 1 < |t| && t[i] == '=' && t[i + 1] != '=' && t[i + 1] != '!' && !IsLineTerminator(t[i + 1])
  }

  // The assignment pattern tried at `p`: optional blanks, a lazy word (the
  // captured name), optional `\s`, an optional operator from IsAssignOp, an
  // `=` not preceded by `=` or `!`, a character that is neither `=` nor `!`,
  // then at least one character before the end of the line. The lazy name
  // can only stop where a word run ends, since the next character must be a
  // space, an operator or `=`.
  function DefMatchAt(t: string, p: nat): (r: Option<string>)
    requires p <= |t|
    ensures r.Some? ==> |r.value| > 0 && AllWordChars(r.value)
    ensures r.Some? ==> exists s: nat :: s + |r.value| <= |t| && OccursAt(t, r.value, s)
  {
    var s := RunEnd(t, p, IsBlank);
    var n := RunEnd(t, s, IsWordChar);
    if s == n then None
    else
      var w := RunEnd(t, n, IsSpace);
      if (w < |t| && IsAssignOp(t[w]) && LoneEqualsAt(t, w + 1)) || LoneEqualsAt(t, w) then
        assert OccursAt(t, t[s..n], s);
        Some(t[s..n])
      else None
  }

  /**
   * The assignment pattern tried at `p` captures `name` at `s`: blanks from
   * `p` to `s`, then `name` made of word characters, then `\s` characters up
   * to `w`, then either an operator and a lone `=` or a lone `=` directly.
   */
  predicate AssignmentShape(t: string, p: nat, name: string, s: nat, w: nat) {
    && p <= s && s + |name| <= w <= |t|
    && (forall k :: p <= k < s ==> IsBlank(t[k]))
    && |name| > 0 && AllWordChars(name) && OccursAt(t, name, s)
    && (forall k :: s + |name| <= k < w ==> IsSpace(t[k]))
    && ((w < |t| && IsAssignOp(t[w]) && LoneEqualsAt(t, w + 1)) || LoneEqualsAt(t, w))
  }

  ghost predicate AssignmentAt(t: string, p: nat, name: string) {
    exists s: nat, w: nat :: AssignmentShape(t, p, name, s, w)
  }

  /** The recogniser at one position returns exactly the names the pattern captures there. */
  lemma DefMatchAtSpec(t: string, p: nat, name: string)
    requires p <= |t|
    ensures DefMatchAt(t, p) == Some(name) <==> AssignmentAt(t, p, name)
  {
    if DefMatchAt(t, p) == Some(name) {
      DefMatchAtSound(t, p);
    }
    if AssignmentAt(t, p, name) {
      var s: nat, w: nat :| AssignmentShape(t, p, name, s, w);
      DefMatchAtComplete(t, p, name, s, w);
    }
  }

  lemma DefMatchAtSound(t: string, p: nat)
    requires p <= |t|
    requires DefMatchAt(t, p).Some?
    ensures AssignmentAt(t, p, DefMatchAt(t, p).value)
  {
    var s := RunEnd(t, p, IsBlank);
    var n := RunEnd(t, s, IsWordChar);
    var w := RunEnd(t, n, IsSpace);
    var name := t[s..n];
    assert AllWordChars(name) by {
      forall k | 0 <= k < |name| ensures IsWordChar(name[k]) {
        assert name[k] == t[s + k];
      }
    }
    assert AssignmentShape(t, p, name, s, w);
  }

  lemma DefMatchAtComplete(t: string, p: nat, name: string, s: nat, w: nat)
    requires AssignmentShape(t, p, name, s, w)
    ensures DefMatchAt(t, p) == Some(name)
  {
    var n := s + |name|;
    assert RunEnd(t, p, IsBlank) == s by {
      assert t[s] == name[0];
      RunEndUnique(t, p, s, IsBlank);
    }
    assert RunEnd(t, s, IsWordChar) == n by {
      forall k | s <= k < n ensures IsWordChar(t[k]) {
        assert t[k] == name[k - s];
      }
      if n < w {
        assert IsSpace(t[n]);
      } else {
        assert IsAssignOp(t[w]) || t[w] == '=';
      }
      RunEndUnique(t, s, n, IsWordChar);
    }
    assert RunEnd(t, n, IsSpace) == w by {
      if w < |t| {
        assert IsAssignOp(t[w]) || t[w] == '=';
      }
      RunEndUnique(t, n, w, IsSpace);
    }
    assert t[s..n] == name;
  }

  /** The leftmost match at or after `p`. */
  function DefMatchFrom(t: string, p: nat): (r: Option<string>)
    requires p <= |t|
    ensures r.Some? ==>
      exists q: nat :: p <= q <= |t| && DefMatchAt(t, q) == r && (forall q': nat :: p <= q' < q ==> DefMatchAt(t, q').None?)
    ensures r.None? ==> forall q: nat :: p <= q <= |t| ==> DefMatchAt(t, q).None?
    decreases |t| - p
  {
    match DefMatchAt(t, p)
    case Some(name) => Some(name)
    case None => if p == |t| then None else DefMatchFrom(t, p + 1)
  }

  /** The assignment pattern's match on a line: the name captured at the leftmost position where the line assigns. */
  function DefMatch(t: string): (r: Option<string>)
    ensures r.Some? ==> |r.value| > 0 && AllWordChars(r.value)
    ensures r.Some? ==>
      exists q: nat :: q <= |t| && DefMatchAt(t, q) == r && (forall q': nat :: q' < q ==> DefMatchAt(t, q').None?)
    ensures r.None? <==> forall q: nat :: q <= |t| ==> DefMatchAt(t, q).None?
  {
    DefMatchFrom(t, 0)
  }

  // ------------------------------------------------------- command arguments

  /**
   * `\(.+?\)` tried at `i`: the index of the closing `)`. The first character
   * inside may itself be `)`; after it the group ends at the first `)`.
   */
  function ParenGroupAt(t: string, i: nat): (r: Option<nat>)
    requires i <= |t|
    ensures r.Some? ==> i + 2 <= r.value < |t| && t[i] == '(' && t[r.value] == ')'
    ensures r.Some? ==> forall k :: i < k < r.value ==> !IsLineTerminator(t[k])
    ensures r.Some? ==> forall k :: i + 1 < k < r.value ==> t[k] != ')'
  {
    if i + 1 < |t| && t[i] == '(' && !IsLineTerminator(t[i + 1]) then
      var j := RunEnd(t, i + 2, NonCloseChar);
      if j < |t| && t[j] == ')' then Some(j) else None
    else None
  }

  predicate NonCloseChar(c: char) {
    c != ')' && !IsLineTerminator(c)
  }

  /**
   * Remove every `\(.+?\)` group of the line, left to right: a group that
   * starts at the front is dropped whole and the scan goes on after its `)`;
   * any other first character is kept.
   */
  function StripParens(t: string): (r: string)
    ensures |r| <= |t|
    decreases |t|
  {
    if |t| == 0 then []
    else
      match ParenGroupAt(t, 0)
      case Some(j) => StripParens(t[j + 1..])
      case None => [t[0]] + StripParens(t[1..])
  }

  /** A leading character other than `(` is kept. */
  lemma StripParensCons(c: char, w: string)
    requires c != '('
    ensures StripParens([c] + w) == [c] + StripParens(w)
  {
    var t := [c] + w;
    assert ParenGroupAt(t, 0).None?;
    assert t[1..] == w;
  }

  /** Stripping keeps a prefix that has no `(` and then strips what follows. */
  lemma {:induction false} StripParensKeepsPlain(u: string, v: string)
    requires forall k :: 0 <= k < |u| ==> u[k] != '('
    ensures StripParens(u + v) == u + StripParens(v)
    decreases |u|
  {
    if |u| == 0 {
      assert u + v == v;
    } else {
      var w := u[1..] + v;
      assert StripParens(u + v) == [u[0]] + StripParens(w) by {
        assert u + v == [u[0]] + w;
        StripParensCons(u[0], w);
      }
      assert StripParens(w) == u[1..] + StripParens(v) by {
        StripParensKeepsPlain(u[1..], v);
      }
      assert u == [u[0]] + u[1..];
    }
  }

  /** Text without `(` is left unchanged. */
  lemma {:induction false} StripParensPlain(t: string)
    requires forall k :: 0 <= k < |t| ==> t[k] != '('
    ensures StripParens(t) == t
  {
    StripParensKeepsPlain(t, []);
    assert t + [] == t;
  }

  /**
   * A group `(x)` at the front is removed whole: `x` starts with any
   * character, has no line terminator, and has no `)` after its first
   * character (the lazy `.+?` stops at the first `)` it may).
   */
  lemma StripParensDropsGroup(x: string, v: string)
    requires |x| > 0 && NoLineTerminator(x)
    requires forall k :: 1 <= k < |x| ==> x[k] != ')'
    ensures StripParens("(" + x + ")" + v) == StripParens(v)
  {
    var t := "(" + x + ")" + v;
    assert t[0] == '(' && t[1] == x[0];
    forall k | 2 <= k < |x| + 1 ensures NonCloseChar(t[k]) {
      assert t[k] == x[k - 1];
    }
    assert t[|x| + 1] == ')';
    assert RunEnd(t, 2, NonCloseChar) == |x| + 1;
    assert ParenGroupAt(t, 0) == Some(|x| + 1);
    assert t[|x| + 2..] == v;
  }

  /** Characters of `[ \t,]`. */
  predicate IsSeparator(c: char) {
    c == ' ' || c == '\t' || c == ','
  }

  /** One `(\w+)[ \t,]+` match: the word and the whole matched text. */
  datatype WordMatch = WordMatch(word: string, text: string)

  /** A maximal word run starts at `p` and a separator follows it. */
  predicate WordAt(t: string, p: nat)
    requires p <= |t|
  {
    var n := RunEnd(t, p, IsWordChar);
    p < n < |t| && IsSeparator(t[n]) && (p == 0 || !IsWordChar(t[p - 1]))
  }

  /**
   * Every match of `(\w+)[ \t,]+` in `t` from `p` on, where `p` is where the previous
   * match ended (so `t[p - 1]`, when it exists, is not a word character).
   * A match can only start where a word run starts: inside a run the same
   * run end is reached and the same separator test fails.
   */
  function WordsFrom(t: string, p: nat): (r: seq<WordMatch>)
    requires p <= |t|
    ensures forall i :: 0 <= i < |r| ==> |r[i].word| > 0 && AllWordChars(r[i].word)
    ensures forall i :: 0 <= i < |r| ==> |r[i].text| > |r[i].word| && r[i].text[..|r[i].word|] == r[i].word
    ensures forall i :: 0 <= i < |r| ==> forall k :: |r[i].word| <= k < |r[i].text| ==> IsSeparator(r[i].text[k])
    decreases |t| - p
  {
    if p == |t| then []
    else
      var n := RunEnd(t, p, IsWordChar);
      if p < n < |t| && IsSeparator(t[n]) then
        var m := RunEnd(t, n, IsSeparator);
        assert t[p..m][..n - p] == t[p..n];
        [WordMatch(t[p..n], t[p..m])] + WordsFrom(t, m)
      else
        WordsFrom(t, if p < n then n else p + 1)
  }

  /** `w` is the match of `(\w+)[ \t,]+` that starts at `q`: the word run and its separators. */
  predicate MatchAt(t: string, q: nat, w: WordMatch)
    requires q <= |t|
  {
    var n := RunEnd(t, q, IsWordChar);
    w.word == t[q..n] && w.text == t[q..RunEnd(t, n, IsSeparator)]
  }

  /** Every word that starts a match at or after `p` is listed. */
  lemma {:induction false} WordsFromComplete(t: string, p: nat, q: nat)
    requires p <= q <= |t| && WordAt(t, q)
    ensures exists i :: 0 <= i < |WordsFrom(t, p)| && MatchAt(t, q, WordsFrom(t, p)[i])
    decreases |t| - p
  {
    var r := WordsFrom(t, p);
    var n := RunEnd(t, p, IsWordChar);
    if q == p {
      assert MatchAt(t, q, r[0]);
    } else if p < n < |t| && IsSeparator(t[n]) {
      var m := RunEnd(t, n, IsSeparator);
      assert m <= q;
      WordsFromComplete(t, m, q);
      var i :| 0 <= i < |WordsFrom(t, m)| && MatchAt(t, q, WordsFrom(t, m)[i]);
      assert r[i + 1] == WordsFrom(t, m)[i];
    } else {
      var next := if p < n then n else p + 1;
      assert next <= q;
      WordsFromComplete(t, next, q);
    }
  }

  /**
   * Every listed match starts where a word run starts and a separator follows
   * it, provided the scan does not start in the middle of a word.
   */
  lemma {:induction false} WordsFromSound(t: string, p: nat, i: nat)
    requires p <= |t|
    requires p == 0 || p == |t| || !IsWordChar(t[p - 1]) || !IsWordChar(t[p])
    requires i < |WordsFrom(t, p)|
    ensures exists q: nat :: p <= q < |t| && WordAt(t, q) && MatchAt(t, q, WordsFrom(t, p)[i])
    decreases |t| - p
  {
    var r := WordsFrom(t, p);
    var n := RunEnd(t, p, IsWordChar);
    if p < n < |t| && IsSeparator(t[n]) {
      var m := RunEnd(t, n, IsSeparator);
      if i == 0 {
        assert WordAt(t, p) && MatchAt(t, p, r[0]);
      } else {
        assert r[i] == WordsFrom(t, m)[i - 1];
        WordsFromSound(t, m, i - 1);
      }
    } else {
      WordsFromSound(t, if p < n then n else p + 1, i);
    }
  }

  /** Words that never name a variable, compared in lower case. */
  const Keywords: seq<string> := ["and", "or", "new", "extends", "if", "loop"]

  predicate IsKeyword(word: string) {
    Lower(word) in Keywords
  }

  /** The captured words of a list of matches. */
  function WordsOf(ms: seq<WordMatch>): (r: seq<string>)
    ensures |r| == |ms| && forall i :: 0 <= i < |ms| ==> r[i] == ms[i].word
  {
    if |ms| == 0 then [] else [ms[0].word] + WordsOf(ms[1..])
  }

  /** The names of a list of variables. */
  function Names(vs: seq<Variable>): (r: seq<string>)
    ensures |r| == |vs| && forall i :: 0 <= i < |vs| ==> r[i] == vs[i].name
  {
    if |vs| == 0 then [] else [vs[0].name] + Names(vs[1..])
  }

  /** The words that are not keywords, in order. */
  function NonKeywords(ws: seq<string>): (r: seq<string>)
    ensures |r| <= |ws|
  {
    if |ws| == 0 then []
    else if IsKeyword(ws[0]) then NonKeywords(ws[1..])
    else [ws[0]] + NonKeywords(ws[1..])
  }

  /** A word survives the filter exactly when it occurs and is not a keyword. */
  lemma {:induction false} NonKeywordsSpec(ws: seq<string>, w: string)
    ensures w in NonKeywords(ws) <==> w in ws && !IsKeyword(w)
  {
    if |ws| > 0 {
      NonKeywordsSpec(ws[1..], w);
      assert ws == [ws[0]] + ws[1..];
    }
  }

  /** Variables for the given matches, dropping keywords. */
  function CommandVariables(doc: Document, line: nat, text: string, ms: seq<WordMatch>): (r: seq<Variable>)
    ensures Names(r) == NonKeywords(WordsOf(ms))
    ensures forall j :: 0 <= j < |r| ==> r[j].line == line && r[j].path == doc.path && r[j].isGlobal
    decreases |ms|
  {
    if |ms| == 0 then []
    else
      var rest := CommandVariables(doc, line, text, ms[1..]);
      assert WordsOf(ms)[1..] == WordsOf(ms[1..]);
      if IsKeyword(ms[0].word) then rest
      else
        var v := Variable(ms[0].word, doc.path, line, IndexOf(text, ms[0].text), true);
        assert Names([v] + rest) == [v.name] + Names(rest) by {
          assert ([v] + rest)[1..] == rest;
        }
        [v] + rest
  }

  /** The outcome of `detectVariableByLine`: one assigned variable, or the command's arguments. */
  datatype VarDetection = Assigned(v: Variable) | Arguments(vs: seq<Variable>)

  /** The detection as the list handed to `joinVars` or `pushVariable`. */
  function AsVars(d: VarDetection): seq<Variable> {
    match d
    case Assigned(v) => [v]
    case Arguments(vs) => vs
  }

  /** The command words of a line: the matches of `(\w+)[ \t,]+` once parenthesised groups are gone. */
  function CommandWords(t: string): seq<string> {
    WordsOf(WordsFrom(StripParens(t), 0))
  }

  /**
   * `Parser.detectVariableByLine`: an assignment yields its target; any other
   * line yields every command word after the first that is not a keyword.
   */
  function DetectVariables(host: Host, doc: Document, line: nat): (r: VarDetection)
    requires line < |doc.lines|
    ensures var t := host.purify(doc.lines[line]);
      && (r.Assigned? <==> DefMatch(t).Some?)
      && (r.Assigned? ==> r.v.name == DefMatch(t).value && r.v.character == IndexOf(t, r.v.name))
      && (r.Arguments? ==>
            if |CommandWords(t)| == 0 then r.vs == [] else Names(r.vs) == NonKeywords(CommandWords(t)[1..]))
    ensures forall j :: 0 <= j < |AsVars(r)| ==>
      AsVars(r)[j].line == line && AsVars(r)[j].path == doc.path && AsVars(r)[j].isGlobal
  {
    var t := host.purify(doc.lines[line]);
    match DefMatch(t)
    case Some(name) => Assigned(Variable(name, doc.path, line, IndexOf(t, name), true))
    case None =>
      var ms := WordsFrom(StripParens(t), 0);
      if |ms| == 0 then Arguments([])
      else
        var vs := CommandVariables(doc, line, t, ms[1..]);
        assert WordsOf(ms)[1..] == WordsOf(ms[1..]);
        Arguments(vs)
  }

  /** A command-style line never yields a keyword, and every name it yields is a command word after the first. */
  lemma ArgumentsAreNonKeywordWords(host: Host, doc: Document, line: nat, name: string)
    requires line < |doc.lines|
    requires DetectVariables(host, doc, line).Arguments?
    requires name in Names(DetectVariables(host, doc, line).vs)
    ensures !IsKeyword(name)
    ensures |CommandWords(host.purify(doc.lines[line]))| > 0 && name in CommandWords(host.purify(doc.lines[line]))[1..]
  {
    NonKeywordsSpec(CommandWords(host.purify(doc.lines[line]))[1..], name);
  }

  /**
   * A word counts only when a blank or comma follows it, so the last argument
   * of a command line is never reported: `MsgBox, x, y` yields the command
   * word and `x`, and of those only `x` becomes a variable.
   */
  lemma LastArgumentDropped()
    ensures CommandWords("MsgBox, x, y") == ["MsgBox", "x"]
  {
    MsgBoxCommandWords("MsgBox, x, y");
  }

  lemma MsgBoxCommandWords(t: string)
    requires t == "MsgBox, x, y"
    ensures CommandWords(t) == ["MsgBox", "x"]
  {
    var ms := [WordMatch("MsgBox", "MsgBox, "), WordMatch("x", "x, ")];
    assert CommandWords(t) == WordsOf(ms) by {
      MsgBoxNoParens(t);
      MsgBoxWords(t);
    }
    var ws := WordsOf(ms);
    assert |ws| == 2 && ws[0] == "MsgBox" && ws[1] == "x";
  }

  lemma MsgBoxNoParens(t: string)
    requires t == "MsgBox, x, y"
    ensures StripParens(t) == t
  {
    forall k | 0 <= k < |t| ensures t[k] != '(' {
    }
    StripParensPlain(t);
  }

  lemma MsgBoxWords(t: string)
    requires t == "MsgBox, x, y"
    ensures WordsFrom(t, 0) == [WordMatch("MsgBox", "MsgBox, "), WordMatch("x", "x, ")]
  {
    MsgBoxFirst(t);
    MsgBoxSecond(t);
    MsgBoxRest(t);
  }

  lemma MsgBoxFirst(t: string)
    requires t == "MsgBox, x, y"
    ensures WordsFrom(t, 0) == [WordMatch("MsgBox", "MsgBox, ")] + WordsFrom(t, 8)
  {
    assert RunEnd(t, 0, IsWordChar) == 6 by { assert !IsWordChar(t[6]); }
    assert RunEnd(t, 6, IsSeparator) == 8 by { assert !IsSeparator(t[8]); }
    assert t[0..6] == "MsgBox" && t[0..8] == "MsgBox, " && IsSeparator(t[6]);
  }

  lemma MsgBoxSecond(t: string)
    requires t == "MsgBox, x, y"
    ensures WordsFrom(t, 8) == [WordMatch("x", "x, ")] + WordsFrom(t, 11)
  {
    assert RunEnd(t, 8, IsWordChar) == 9 by { assert !IsWordChar(t[9]); }
    assert RunEnd(t, 9, IsSeparator) == 11 by { assert !IsSeparator(t[11]); }
    assert t[8..9] == "x" && t[8..11] == "x, " && IsSeparator(t[9]);
  }

  lemma MsgBoxRest(t: string)
    requires t == "MsgBox, x, y"
    ensures WordsFrom(t, 11) == []
  {
    assert RunEnd(t, 11, IsWordChar) == 12;
    assert WordsFrom(t, 12) == [];
  }

  // -------------------------------------------------------------- joinVars

  /** Some variable in `vs` carries `name`. */
  predicate HasName(vs: seq<Variable>, name: string) {
    exists i :: 0 <= i < |vs| && vs[i].name == name
  }

  /** No two variables in `vs` share a name. */
  predicate UniqueNames(vs: seq<Variable>) {
    forall i, j :: 0 <= i < j < |vs| ==> vs[i].name != vs[j].name
  }

  /**
   * `Parser.joinVars(variables, items)`: append each item whose name is not
   * yet in the (growing) list, in order.
   */
  function JoinVars(vars: seq<Variable>, items: seq<Variable>): (r: seq<Variable>)
    ensures |vars| <= |r| && r[..|vars|] == vars
    ensures forall i :: |vars| <= i < |r| ==> r[i] in items && !HasName(vars, r[i].name)
    ensures forall n :: HasName(r, n) <==> HasName(vars, n) || HasName(items, n)
    ensures UniqueNames(vars) ==> UniqueNames(r)
    decreases |items|
  {
    if |items| == 0 then vars
    else
      var x := items[0];
      var next := if HasName(vars, x.name) then vars else vars + [x];
      var r := JoinVars(next, items[1..]);
      JoinStep(vars, items, next, r);
      r
  }

  lemma JoinStep(vars: seq<Variable>, items: seq<Variable>, next: seq<Variable>, r: seq<Variable>)
    requires |items| > 0
    requires next == if HasName(vars, items[0].name) then vars else vars + [items[0]]
    requires |next| <= |r| && r[..|next|] == next
    requires forall i :: |next| <= i < |r| ==> r[i] in items[1..] && !HasName(next, r[i].name)
    requires forall n :: HasName(r, n) <==> HasName(next, n) || HasName(items[1..], n)
    requires UniqueNames(next) ==> UniqueNames(r)
    ensures |vars| <= |r| && r[..|vars|] == vars
    ensures forall i :: |vars| <= i < |r| ==> r[i] in items && !HasName(vars, r[i].name)
    ensures forall n :: HasName(r, n) <==> HasName(vars, n) || HasName(items, n)
    ensures UniqueNames(vars) ==> UniqueNames(r)
  {
    assert r[..|vars|] == next[..|vars|];
    forall i | |vars| <= i < |r| ensures r[i] in items && !HasName(vars, r[i].name) {
      if i < |next| {
        assert r[i] == items[0];
      } else {
        assert r[i] in items[1..];
        NameNotInPrefix(vars, next, r[i].name);
      }
    }
    forall n ensures HasName(r, n) <==> HasName(vars, n) || HasName(items, n) {
      if HasName(items, n) && !HasName(items[1..], n) {
        NotInTail(items, n);
        assert items[0].name == n;
        if !HasName(vars, n) {
          assert next[|vars|].name == n;
        }
      }
      if HasName(items[1..], n) {
        var k :| 0 <= k < |items[1..]| && items[1..][k].name == n;
        assert items[k + 1].name == n;
      }
      if HasName(next, n) {
        var k :| 0 <= k < |next| && next[k].name == n;
        if k >= |vars| {
          assert items[0].name == n;
        }
      }
      if HasName(vars, n) {
        var k :| 0 <= k < |vars| && vars[k].name == n;
        assert next[k].name == n;
      }
    }
    if UniqueNames(vars) && !HasName(vars, items[0].name) {
      forall i, j | 0 <= i < j < |next| ensures next[i].name != next[j].name {
        if j == |vars| {
          assert next[i] == vars[i];
        }
      }
    }
  }

  lemma NotInTail(items: seq<Variable>, n: string)
    requires |items| > 0 && !HasName(items[1..], n)
    ensures forall j :: 1 <= j < |items| ==> items[j].name != n
  {
    forall j | 1 <= j < |items| ensures items[j].name != n {
      assert items[1..][j - 1] == items[j];
    }
  }

  lemma NameNotInPrefix(vars: seq<Variable>, next: seq<Variable>, n: string)
    requires |vars| <= |next| && next[..|vars|] == vars
    requires !HasName(next, n)
    ensures !HasName(vars, n)
  {
    forall k | 0 <= k < |vars| ensures vars[k].name != n {
      assert next[k] == vars[k];
    }
  }

  /**
   * The merge keeps the existing list and adds exactly the items whose name
   * is new: the first item carrying each such name.
   */
  lemma {:induction false} JoinVarsAddsFirstOfEachNewName(vars: seq<Variable>, items: seq<Variable>, k: nat)
    requires k < |items|
    requires !HasName(vars, items[k].name)
    requires forall i :: 0 <= i < k ==> items[i].name != items[k].name
    ensures items[k] in JoinVars(vars, items)
    decreases |items|
  {
    var x := items[0];
    var next := if HasName(vars, x.name) then vars else vars + [x];
    if k == 0 {
      assert next == vars + [x];
      assert JoinVars(vars, items)[..|next|] == next;
      assert JoinVars(vars, items)[|vars|] == x;
    } else {
      assert items[1..][k - 1] == items[k];
      assert !HasName(next, items[k].name) by {
        forall j | 0 <= j < |next| ensures next[j].name != items[k].name {
          if j >= |vars| {
            assert next[j] == x;
          }
        }
      }
      JoinVarsAddsFirstOfEachNewName(next, items[1..], k - 1);
    }
  }
}
