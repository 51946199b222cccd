/**
 * The single-line recognisers of the parser other than the method/reference
 * and variable detectors: labels, hotkeys, `;;` blocks, remarks and the
 * block-comment markers. Each regular expression is resolved into the one
 * outcome JavaScript's backtracking matcher produces for it.
 */
module LineDetectors {
  import opened Wrappers
  import opened Text
  import opened Symbols

  // ---------------------------------------------------------------- labels

  /** `^[ \t]*([一-龥_a-zA-Z0-9]+):{1}(?!(:|=))`: the captured name, if any. */
  function LabelMatch(t: string): Option<string> {
    var a := RunEnd(t, 0, IsBlank);
    var c := RunEnd(t, a, IsNameChar);
    if a < c < |t| && t[c] == ':' && !(c + 1 < |t| && (t[c + 1] == ':' || t[c + 1] == '='))
    then Some(t[a..c])
    else None
  }

  /** `t` is blanks, then `name`, then a single `:` not followed by `:` or `=`. */
  ghost predicate LabelAt(t: string, a: nat, name: string) {
    && a + |name| < |t|
    && (forall k :: 0 <= k < a ==> IsBlank(t[k]))
    && |name| > 0
    && AllNameChars(name)
    && t[a..a + |name|] == name
    && t[a + |name|] == ':'
    && !(a + |name| + 1 < |t| && (t[a + |name| + 1] == ':' || t[a + |name| + 1] == '='))
  }

  /** The recogniser finds exactly the lines that have the label shape. */
  lemma LabelMatchSpec(t: string, name: string)
    ensures LabelMatch(t) == Some(name) <==> exists a: nat :: LabelAt(t, a, name)
  {
    var a := RunEnd(t, 0, IsBlank);
    var c := RunEnd(t, a, IsNameChar);
    if LabelMatch(t) == Some(name) {
      assert LabelAt(t, a, name);
    }
    if a': nat :| LabelAt(t, a', name) {
      assert t[a'] == name[0];
      assert a == a';
      var c' := a + |name|;
      forall k | a <= k < c' ensures IsNameChar(t[k]) {
        assert t[k] == name[k - a];
      }
      assert c == c';
    }
  }

  /** `case` and `default` (any casing) are branch syntax, never labels. */
  predicate IsReservedLabel(name: string) {
    Lower(name) == "case" || Lower(name) == "default"
  }

  /** `Parser.getLabelByLine`. */
  function GetLabel(host: Host, doc: Document, line: nat): (r: Option<Label>)
    requires line < |doc.lines|
    ensures r.Some? ==> !IsReservedLabel(r.value.name)
    ensures r.Some? ==> r.value.line == line && r.value.path == doc.path && |r.value.name| > 0
    ensures r.Some? <==>
      LabelMatch(host.purify(doc.lines[line])).Some? && !IsReservedLabel(LabelMatch(host.purify(doc.lines[line])).value)
    ensures r.Some? ==> Some(r.value.name) == LabelMatch(host.purify(doc.lines[line]))
    ensures r.Some? ==> r.value.character == IndexOf(host.purify(doc.lines[line]), r.value.name)
  {
    var text := host.purify(doc.lines[line]);
    match LabelMatch(text)
    case None => None
    case Some(name) =>
      if IsReservedLabel(name) then None
      else Some(Label(name, doc.path, line, IndexOf(text, name)))
  }

  // --------------------------------------------------------------- hotkeys

  predicate ColonsAt(t: string, j: nat) {
    j + 2 <= |t| && t[j] == ':' && t[j + 1] == ':'
  }

  /** The lazy `(.+?)::` anchored at 0, searched from the candidate end `k`. */
  function ColonsFrom(t: string, k: nat): (r: Option<nat>)
    requires 1 <= k <= |t| + 1
    requires NoLineTerminator(t[..k - 1])
    ensures r.Some? ==> k <= r.value && ColonsAt(t, r.value) && NoLineTerminator(t[..r.value])
    ensures r.Some? ==> forall j :: k <= j < r.value ==> !ColonsAt(t, j)
    ensures r.None? ==> forall j :: k <= j && ColonsAt(t, j) ==> !NoLineTerminator(t[..j])
    decreases |t| - k
  {
    if k + 2 > |t| then None
    else if IsLineTerminator(t[k - 1]) then
      assert forall j :: k <= j <= |t| ==> t[..j][k - 1] == t[k - 1];
      None
    else
      assert t[..k] == t[..k - 1] + [t[k - 1]];
      if ColonsAt(t, k) then Some(k) else ColonsFrom(t, k + 1)
  }

  /** `^(.+?)::`: the end of the hotkey text before the first `::` past position 0. */
  function HotkeyPrefix(t: string): (r: Option<nat>)
    ensures r.Some? ==> 1 <= r.value && ColonsAt(t, r.value) && NoLineTerminator(t[..r.value])
    ensures r.Some? ==> forall j :: 1 <= j < r.value ==> !ColonsAt(t, j)
    ensures r.None? ==> forall j :: 1 <= j && ColonsAt(t, j) ==> !NoLineTerminator(t[..j])
  {
    ColonsFrom(t, 1)
  }

  predicate NotComma(c: char) {
    c != ','
  }

  /** The position right after `hotkey` and its one separator when they start at `p`. */
  predicate HotkeyWordAt(t: string, p: nat) {
    p + 7 <= |t| && StartsWithCI(t[p..], "hotkey") && (IsSpace(t[p + 6]) || t[p + 6] == ',')
  }

  /** `hotkey(?:\s|,)\s*(?!\s*if)([^,]+)` (case-insensitive) tried at position `p`. */
  function HotkeyCommandAt(t: string, p: nat): (r: Option<string>)
    requires p <= |t|
    ensures r.Some? ==> HotkeyWordAt(t, p)
    ensures r.Some? ==> !StartsWithCI(t[RunEnd(t, p + 7, IsSpace)..], "if")
    ensures r.Some? ==> |r.value| > 0 && ',' !in r.value
  {
    if !HotkeyWordAt(t, p) then None
    else
      var e := RunEnd(t, p + 7, IsSpace);
      if StartsWithCI(t[e..], "if") then None
      else if e < |t| && t[e] != ',' then
        var f := RunEnd(t, e, NotComma);
        assert forall c :: c in t[e..f] ==> NotComma(c);
        Some(t[e..f])
      else if e > p + 7 then
        // `[^,]+` fails after the whitespace, so `\s*` gives back its last character
        assert IsSpace(t[e - 1]);
        Some(t[e - 1..e])
      else None
  }

  /**
   * The command alternative matches at `p` and captures `t[s..f]`: `hotkey`
   * and one separator, blanks up to `s`, no `if` after the blanks that
   * follow `s`, and the longest comma-free run from `s`. `\s*` stops short of
   * `s` only when taking `t[s]` as well would leave `[^,]+` nothing to match.
   */
  predicate HotkeyCommandShape(t: string, p: nat, s: nat, f: nat) {
    && HotkeyWordAt(t, p)
    && p + 7 <= s < f <= |t|
    && (forall i :: p + 7 <= i < s ==> IsSpace(t[i]))
    && (forall i :: s <= i < f ==> t[i] != ',')
    && (f == |t| || t[f] == ',')
    && !StartsWithCI(t[RunEnd(t, s, IsSpace)..], "if")
    && !(IsSpace(t[s]) && s + 1 < |t| && t[s + 1] != ',')
  }

  /** The capture at `p` is exactly a text with the command shape, including the give-back case. */
  lemma HotkeyCommandAtSpec(t: string, p: nat, name: string)
    requires p <= |t|
    ensures HotkeyCommandAt(t, p) == Some(name) <==>
      exists s: nat, f: nat :: HotkeyCommandShape(t, p, s, f) && name == t[s..f]
  {
    if HotkeyCommandAt(t, p) == Some(name) {
      HotkeyCommandAtSound(t, p);
    }
    if s: nat, f: nat :| HotkeyCommandShape(t, p, s, f) && name == t[s..f] {
      HotkeyCommandAtComplete(t, p, s, f);
    }
  }

  lemma HotkeyCommandAtSound(t: string, p: nat)
    requires p <= |t|
    requires HotkeyCommandAt(t, p).Some?
    ensures exists s: nat, f: nat :: HotkeyCommandShape(t, p, s, f) && HotkeyCommandAt(t, p).value == t[s..f]
  {
    var e := RunEnd(t, p + 7, IsSpace);
    if e < |t| && t[e] != ',' {
      var f := RunEnd(t, e, NotComma);
      RunEndUnique(t, e, e, IsSpace);
      assert HotkeyCommandShape(t, p, e, f);
    } else {
      RunEndUnique(t, e - 1, e, IsSpace);
      assert HotkeyCommandShape(t, p, e - 1, e);
    }
  }

  lemma HotkeyCommandAtComplete(t: string, p: nat, s: nat, f: nat)
    requires HotkeyCommandShape(t, p, s, f)
    ensures HotkeyCommandAt(t, p) == Some(t[s..f])
  {
    if IsSpace(t[s]) {
      assert f == s + 1;
      RunEndUnique(t, p + 7, s + 1, IsSpace);
      RunEndUnique(t, s, s + 1, IsSpace);
    } else {
      RunEndUnique(t, p + 7, s, IsSpace);
      RunEndUnique(t, s, s, IsSpace);
      RunEndUnique(t, s, f, NotComma);
    }
  }

  /** The leftmost position at or after `p` where the command alternative matches. */
  function HotkeyCommandFrom(t: string, p: nat): (r: Option<(nat, string)>)
    requires p <= |t|
    ensures r.Some? ==> p <= r.value.0 <= |t| && HotkeyCommandAt(t, r.value.0) == Some(r.value.1)
    ensures r.Some? ==> forall q :: p <= q < r.value.0 ==> HotkeyCommandAt(t, q).None?
    ensures r.None? ==> forall q :: p <= q <= |t| ==> HotkeyCommandAt(t, q).None?
  {
    HotkeyCommandScanLeftmost(t, p);
    HotkeyCommandScan(t, p)
  }

  /** Try the command alternative at `p`, `p + 1`, ... up to the end of `t`. */
  function HotkeyCommandScan(t: string, p: nat): Option<(nat, string)>
    requires p <= |t|
    decreases |t| - p
  {
    var m := HotkeyCommandAt(t, p);
    if m.Some? then Some((p, m.value))
    else if p == |t| then None
    else HotkeyCommandScan(t, p + 1)
  }

  lemma {:induction false} HotkeyCommandScanLeftmost(t: string, p: nat)
    requires p <= |t|
    ensures var r := HotkeyCommandScan(t, p);
      && (r.Some? ==> p <= r.value.0 <= |t| && HotkeyCommandAt(t, r.value.0) == Some(r.value.1))
      && (r.Some? ==> forall q :: p <= q < r.value.0 ==> HotkeyCommandAt(t, q).None?)
      && (r.None? ==> forall q :: p <= q <= |t| ==> HotkeyCommandAt(t, q).None?)
  {
    HotkeyCommandScanFound(t, p);
    HotkeyCommandScanFirst(t, p);
    HotkeyCommandScanNone(t, p);
  }

  lemma {:induction false} HotkeyCommandScanFound(t: string, p: nat)
    requires p <= |t|
    ensures var r := HotkeyCommandScan(t, p);
      r.Some? ==> p <= r.value.0 <= |t| && HotkeyCommandAt(t, r.value.0) == Some(r.value.1)
    decreases |t| - p
  {
    if HotkeyCommandAt(t, p).None? && p < |t| {
      HotkeyCommandScanFound(t, p + 1);
    }
  }

  lemma {:induction false} HotkeyCommandScanFirst(t: string, p: nat)
    requires p <= |t|
    ensures var r := HotkeyCommandScan(t, p);
      r.Some? ==> r.value.0 <= |t| && forall q :: p <= q < r.value.0 ==> HotkeyCommandAt(t, q).None?
    decreases |t| - p
  {
    if HotkeyCommandAt(t, p).None? && p < |t| {
      HotkeyCommandScanFirst(t, p + 1);
    }
  }

  lemma {:induction false} HotkeyCommandScanNone(t: string, p: nat)
    requires p <= |t|
    ensures HotkeyCommandScan(t, p).None? ==> forall q :: p <= q <= |t| ==> HotkeyCommandAt(t, q).None?
    decreases |t| - p
  {
    if HotkeyCommandAt(t, p).None? && p < |t| {
      HotkeyCommandScanNone(t, p + 1);
    }
  }

  /** `^(.+?)::|hotkey(?:\s|,)\s*(?!\s*if)([^,]+)` (flag `i`): the first alternative's capture when it matches, else the second's. */
  function HotkeyMatch(t: string): Option<string> {
    match HotkeyPrefix(t)
    case Some(k) => Some(t[..k])
    case None =>
      match HotkeyCommandFrom(t, 0)
      case Some((_, name)) => Some(name)
      case None => None
  }

  /** The first alternative `^(.+?)::` matches and ends its capture at `k`. */
  ghost predicate PrefixAlternative(t: string, k: nat) {
    && 1 <= k
    && ColonsAt(t, k)
    && NoLineTerminator(t[..k])
    && forall j :: 1 <= j < k ==> !ColonsAt(t, j)
  }

  /** The second alternative, tried at `p`, captures `name`. */
  ghost predicate CommandAlternative(t: string, p: nat, name: string) {
    exists s: nat, f: nat :: HotkeyCommandShape(t, p, s, f) && name == t[s..f]
  }

  /** The second alternative captures `name` at `p`, and at no earlier position. */
  ghost predicate LeftmostCommand(t: string, p: nat, name: string) {
    p <= |t| && CommandAlternative(t, p, name) && forall q: nat, n: string :: q < p ==> !CommandAlternative(t, q, n)
  }

  /**
   * The hotkey pattern captures `name` exactly when the first alternative
   * captures it, or the first alternative matches nowhere and the second
   * captures it at the leftmost position where it matches.
   */
  lemma HotkeyMatchSpec(t: string, name: string)
    ensures HotkeyMatch(t) == Some(name) <==>
      || (exists k: nat :: PrefixAlternative(t, k) && name == t[..k])
      || ((forall k: nat :: !PrefixAlternative(t, k)) && exists p: nat :: LeftmostCommand(t, p, name))
  {
    if HotkeyPrefix(t).Some? {
      PrefixAlternativeFirst(t);
    } else {
      PrefixAlternativeNone(t);
      CommandFromSpec(t, name);
    }
  }

  /** When the first alternative matches, its end is the only one `PrefixAlternative` admits. */
  lemma PrefixAlternativeFirst(t: string)
    requires HotkeyPrefix(t).Some?
    ensures PrefixAlternative(t, HotkeyPrefix(t).value)
    ensures forall k: nat :: PrefixAlternative(t, k) ==> k == HotkeyPrefix(t).value
  {
    var h := HotkeyPrefix(t).value;
    forall k: nat | PrefixAlternative(t, k) ensures k == h {
    }
  }

  lemma PrefixAlternativeNone(t: string)
    requires HotkeyPrefix(t).None?
    ensures forall k: nat :: !PrefixAlternative(t, k)
  {
  }

  /** `HotkeyCommandFrom` from 0 finds `name` exactly when it is the leftmost capture of the second alternative. */
  lemma CommandFromSpec(t: string, name: string)
    ensures (HotkeyCommandFrom(t, 0).Some? && HotkeyCommandFrom(t, 0).value.1 == name) <==>
      exists p: nat :: LeftmostCommand(t, p, name)
  {
    var c := HotkeyCommandFrom(t, 0);
    if c.Some? {
      var p := c.value.0;
      HotkeyCommandAtSpec(t, p, c.value.1);
      forall q: nat, n: string | q < p ensures !CommandAlternative(t, q, n) {
        HotkeyCommandAtSpec(t, q, n);
      }
      assert LeftmostCommand(t, p, c.value.1);
      forall p': nat | LeftmostCommand(t, p', name) ensures name == c.value.1 {
        LeftmostUnique(t, p, c.value.1, p', name);
      }
    } else {
      forall p: nat, n: string | p <= |t| ensures !CommandAlternative(t, p, n) {
        HotkeyCommandAtSpec(t, p, n);
      }
    }
  }

  lemma LeftmostUnique(t: string, p: nat, n: string, p': nat, n': string)
    requires LeftmostCommand(t, p, n) && LeftmostCommand(t, p', n')
    ensures n == n'
  {
    HotkeyCommandAtSpec(t, p, n);
    HotkeyCommandAtSpec(t, p, n');
  }

  /** `Parser.getHotkeyByLine`: works on the normalised, trimmed line. */
  function GetHotkey(host: Host, doc: Document, line: nat): (r: Option<Hotkey>)
    requires line < |doc.lines|
    ensures r.Some? ==> r.value.line == line && r.value.path == doc.path && |r.value.name| > 0
    ensures r.Some? <==> HotkeyMatch(Trim(host.purify(doc.lines[line]))).Some?
    ensures r.Some? ==> Some(r.value.name) == HotkeyMatch(Trim(host.purify(doc.lines[line])))
    ensures r.Some? ==> r.value.character == IndexOf(Trim(host.purify(doc.lines[line])), r.value.name)
  {
    var text := Trim(host.purify(doc.lines[line]));
    match HotkeyMatch(text)
    case None => None
    case Some(name) => Some(Hotkey(name, doc.path, line, IndexOf(text, name)))
  }

  /** `s` opens with `:`, and `k` is the next `:`, with no line terminator in between. */
  predicate OptionsEndAt(s: string, k: nat) {
    0 < k < |s| && s[0] == ':' && s[k] == ':' && forall j :: 0 < j < k ==> NotColonOrTerminator(s[j])
  }

  /** Delete a leading `^:.*?:`, the `:options:` of a hotstring name. */
  function StripOptions(s: string): (r: string)
    ensures |r| <= |s|
    ensures (|s| == 0 || s[0] != ':') ==> r == s
    ensures forall k: nat :: OptionsEndAt(s, k) ==> r == s[k + 1..]
    ensures r == s || exists k: nat :: OptionsEndAt(s, k) && r == s[k + 1..]
  {
    if |s| == 0 || s[0] != ':' then s
    else
      var k := RunEnd(s, 1, NotColonOrTerminator);
      assert forall k': nat :: OptionsEndAt(s, k') ==> k' == k;
      if k < |s| && s[k] == ':' then
        assert OptionsEndAt(s, k);
        s[k + 1..]
      else s
  }

  predicate NotColonOrTerminator(c: char) {
    c != ':' && !IsLineTerminator(c)
  }

  predicate PlainText(s: string) {
    NoLineTerminator(s) && ':' !in s
  }

  /**
   * A hotstring `:options:abbreviation::replacement` is found under the name
   * `:options:abbreviation`, and the lookup's prefix stripping turns that name
   * back into the abbreviation.
   */
  lemma {:induction false} HotstringRoundTrip(options: string, abbreviation: string, replacement: string)
    requires PlainText(options) && PlainText(abbreviation) && |abbreviation| > 0
    ensures var name := ":" + options + ":" + abbreviation;
      && HotkeyMatch(name + "::" + replacement) == Some(name)
      && StripOptions(Lower(name)) == Lower(abbreviation)
  {
    var name := ":" + options + ":" + abbreviation;
    var t := name + "::" + replacement;
    var k := |name|;
    assert t[..k] == name;
    assert ColonsAt(t, k);
    forall j | 1 <= j < k ensures !ColonsAt(t, j) {
      assert t[j] == name[j];
      if j <= |options| {
        assert name[j] == options[j - 1];
      } else if j == |options| + 1 {
        assert t[j + 1] == name[j + 1] == abbreviation[0];
      } else {
        assert name[j] == abbreviation[j - |options| - 2];
      }
    }
    forall i | 0 <= i < k ensures !IsLineTerminator(name[i]) {
      if 1 <= i <= |options| {
        assert name[i] == options[i - 1];
      } else if i > |options| + 1 {
        assert name[i] == abbreviation[i - |options| - 2];
      }
    }
    assert NoLineTerminator(t[..k]);
    assert HotkeyPrefix(t) == Some(k);
    assert HotkeyMatch(t) == Some(name);
    var s := Lower(name);
    var e := RunEnd(s, 1, NotColonOrTerminator);
    forall i | 1 <= i < |options| + 1 ensures NotColonOrTerminator(s[i]) {
      assert s[i] == LowerChar(options[i - 1]);
    }
    assert s[|options| + 1] == LowerChar(name[|options| + 1]);
    assert e == |options| + 1;
    assert s[|options| + 2..] == Lower(abbreviation);
  }

  // ------------------------------------------------------- rest of a line

  /** `text` is the whole run of non-terminators that starts at `s`, as `(.+)` captures it. */
  predicate RestOfLineAt(t: string, s: nat, text: string) {
    && OccursAt(t, text, s)
    && NoLineTerminator(text)
    && (s + |text| == |t| || IsLineTerminator(t[s + |text|]))
  }

  /** The run is determined by where it starts. */
  lemma RestOfLineUnique(t: string, s: nat, text: string)
    requires RestOfLineAt(t, s, text)
    ensures s + |text| == RunEnd(t, s, NotLineTerminator)
    ensures text == t[s..RunEnd(t, s, NotLineTerminator)]
  {
    var e := RunEnd(t, s, NotLineTerminator);
    forall k | s <= k < s + |text| ensures NotLineTerminator(t[k]) {
      assert t[k] == text[k - s];
    }
  }

  /** The maximal run from `s` has the shape the predicate describes. */
  lemma RestOfLineRun(t: string, s: nat)
    requires s <= |t|
    ensures RestOfLineAt(t, s, t[s..RunEnd(t, s, NotLineTerminator)])
  {
    var e := RunEnd(t, s, NotLineTerminator);
    assert forall k :: 0 <= k < e - s ==> t[s..e][k] == t[s + k];
  }

  // ---------------------------------------------------------------- blocks

  predicate BlockMarkerAt(t: string, i: nat) {
    i + 3 <= |t| && t[i] == ';' && t[i + 1] == ';' && !IsLineTerminator(t[i + 2])
  }

  /** The leftmost `;;` at or after `p` that `;;(.+)` can use. */
  function BlockMarkerFrom(t: string, p: nat): (r: Option<nat>)
    ensures r.Some? ==> p <= r.value && BlockMarkerAt(t, r.value)
    ensures r.Some? ==> forall i :: p <= i < r.value ==> !BlockMarkerAt(t, i)
    ensures r.None? ==> forall i :: p <= i ==> !BlockMarkerAt(t, i)
    decreases |t| - p
  {
    if p + 3 > |t| then None
    else if BlockMarkerAt(t, p) then Some(p)
    else BlockMarkerFrom(t, p + 1)
  }

  /** `name` is what `;;(.+)` captures with its marker at `i`: the first usable `;;` and the rest of the line. */
  predicate BlockAt(t: string, i: nat, name: string) {
    && BlockMarkerAt(t, i)
    && (forall j :: 0 <= j < i ==> !BlockMarkerAt(t, j))
    && RestOfLineAt(t, i + 2, name)
  }

  /** `;;(.+)`: the rest of the line after the first usable `;;`. */
  function BlockMatch(t: string): (r: Option<string>)
    ensures r.Some? <==> exists i: nat :: BlockMarkerAt(t, i)
    ensures r.Some? ==> |r.value| > 0 && NoLineTerminator(r.value)
    ensures r.Some? ==> exists i: nat :: BlockAt(t, i, r.value)
  {
    match BlockMarkerFrom(t, 0)
    case None => None
    case Some(i) =>
      var e := RunEnd(t, i + 2, NotLineTerminator);
      RestOfLineRun(t, i + 2);
      assert BlockAt(t, i, t[i + 2..e]);
      Some(t[i + 2..e])
  }

  /** The block recogniser returns exactly the names the block shape allows. */
  lemma BlockMatchSpec(t: string, name: string)
    ensures BlockMatch(t) == Some(name) <==> exists i: nat :: BlockAt(t, i, name)
  {
    if i: nat :| BlockAt(t, i, name) {
      var i0 := BlockMarkerFrom(t, 0).value;
      assert i0 == i;
      RestOfLineUnique(t, i + 2, name);
    }
  }

  /** `Parser.getBlockByLine`: works on the raw line. */
  function GetBlock(doc: Document, line: nat): (r: Option<Block>)
    requires line < |doc.lines|
    ensures r.Some? <==> exists i: nat :: BlockMarkerAt(doc.lines[line], i)
    ensures r.Some? ==> r.value.line == line && r.value.path == doc.path && |r.value.name| > 0
    ensures r.Some? ==> exists i: nat :: BlockAt(doc.lines[line], i, r.value.name)
    ensures r.Some? ==> r.value.character == IndexOf(doc.lines[line], r.value.name)
  {
    var text := doc.lines[line];
    match BlockMatch(text)
    case None => None
    case Some(name) => Some(Block(name, doc.path, line, IndexOf(text, name)))
  }

  // --------------------------------------------------------------- remarks

  /** The largest index in `[lo, hi)` whose character is not a line terminator. */
  function LastNonTerminator(t: string, lo: nat, hi: nat): (r: Option<nat>)
    requires lo <= hi <= |t|
    ensures r.Some? ==> lo <= r.value < hi && !IsLineTerminator(t[r.value])
    ensures r.Some? ==> forall j :: r.value < j < hi ==> IsLineTerminator(t[j])
    ensures r.None? ==> forall j :: lo <= j < hi ==> IsLineTerminator(t[j])
    decreases hi
  {
    if hi == lo then None
    else if !IsLineTerminator(t[hi - 1]) then Some(hi - 1)
    else LastNonTerminator(t, lo, hi - 1)
  }

  /** `^\s*;\s*(.+)`: the text of a `;` comment line. */
  function RemarkText(t: string): (r: Option<string>)
    ensures r.Some? ==> |r.value| > 0 && NoLineTerminator(r.value)
  {
    var a := RunEnd(t, 0, IsSpace);
    if a == |t| || t[a] != ';' then None
    else
      var b := RunEnd(t, a + 1, IsSpace);
      if b < |t| then
        Some(t[b..RunEnd(t, b, NotLineTerminator)])
      else
        // `.+` needs a character, so `\s*` gives back its last non-terminator
        match LastNonTerminator(t, a + 1, b)
        case None => None
        case Some(j) => Some([t[j]])
  }

  /** `t` opens, after `\s*`, with `;` and has some non-terminator after that `;`. */
  ghost predicate IsRemarkLine(t: string) {
    exists a :: 0 <= a < |t| && t[a] == ';' && (forall k :: 0 <= k < a ==> IsSpace(t[k]))
      && exists j :: a < j < |t| && !IsLineTerminator(t[j])
  }

  /** The remark recogniser accepts exactly the remark-shaped lines. */
  lemma RemarkTextSpec(t: string)
    ensures RemarkText(t).Some? <==> IsRemarkLine(t)
  {
    var a := RunEnd(t, 0, IsSpace);
    if RemarkText(t).Some? {
      var b := RunEnd(t, a + 1, IsSpace);
      if b < |t| {
        assert !IsLineTerminator(t[b]);
      } else {
        var j := LastNonTerminator(t, a + 1, b).value;
        assert a < j < |t| && !IsLineTerminator(t[j]);
      }
      assert IsRemarkLine(t);
    }
    if IsRemarkLine(t) {
      var a', j :| 0 <= a' < |t| && t[a'] == ';' && (forall k :: 0 <= k < a' ==> IsSpace(t[k]))
        && a' < j < |t| && !IsLineTerminator(t[j]);
      assert a == a';
      var b := RunEnd(t, a + 1, IsSpace);
      if b == |t| {
        assert LastNonTerminator(t, a + 1, b).Some?;
      }
    }
  }

  /**
   * Where `\s*(.+)` starts its capture after the `;` at `a`: `\s*` runs as
   * far as it can while leaving `(.+)` a first character, so `s` is either the
   * first non-space after `a` or, when only spaces follow, the last character
   * that is not a line terminator.
   */
  ghost predicate RemarkStart(t: string, a: nat, s: nat) {
    && a < s < |t|
    && (forall k :: a < k < s ==> IsSpace(t[k]))
    && (!IsSpace(t[s]) || forall k :: s < k < |t| ==> IsLineTerminator(t[k]))
  }

  /** `text` is what `^\s*;\s*(.+)` captures from `t`. */
  ghost predicate RemarkAt(t: string, text: string) {
    exists a: nat, s: nat ::
      && a < |t| && t[a] == ';' && (forall k :: 0 <= k < a ==> IsSpace(t[k]))
      && RemarkStart(t, a, s)
      && |text| > 0
      && RestOfLineAt(t, s, text)
  }

  /** The remark recogniser returns exactly the text the remark shape captures. */
  lemma RemarkTextContent(t: string, text: string)
    ensures RemarkText(t) == Some(text) <==> RemarkAt(t, text)
  {
    if RemarkText(t) == Some(text) {
      RemarkTextSound(t);
    }
    if RemarkAt(t, text) {
      var a: nat, s: nat :| && a < |t| && t[a] == ';' && (forall k :: 0 <= k < a ==> IsSpace(t[k]))
        && RemarkStart(t, a, s) && |text| > 0 && RestOfLineAt(t, s, text);
      RemarkTextComplete(t, a, s, text);
    }
  }

  /** What the recogniser returns has the remark shape. */
  lemma RemarkTextSound(t: string)
    requires RemarkText(t).Some?
    ensures RemarkAt(t, RemarkText(t).value)
  {
    var a := RunEnd(t, 0, IsSpace);
    var b := RunEnd(t, a + 1, IsSpace);
    if b < |t| {
      RemarkSoundAfterBlanks(t, a, b);
    } else {
      RemarkSoundGiveBack(t, a, b, LastNonTerminator(t, a + 1, b).value);
    }
  }

  /** The capture starts at the first non-blank after the `;`. */
  lemma RemarkSoundAfterBlanks(t: string, a: nat, b: nat)
    requires a < |t| && t[a] == ';' && a == RunEnd(t, 0, IsSpace)
    requires b == RunEnd(t, a + 1, IsSpace) && b < |t|
    ensures RemarkAt(t, t[b..RunEnd(t, b, NotLineTerminator)])
  {
    RestOfLineRun(t, b);
    assert RemarkStart(t, a, b);
  }

  /** Only blanks follow the `;`: the capture is the last non-terminator, given back by `\s*`. */
  lemma RemarkSoundGiveBack(t: string, a: nat, b: nat, j: nat)
    requires a < |t| && t[a] == ';' && a == RunEnd(t, 0, IsSpace)
    requires b == RunEnd(t, a + 1, IsSpace) && b == |t|
    requires LastNonTerminator(t, a + 1, b) == Some(j)
    ensures RemarkAt(t, [t[j]])
  {
    assert RunEnd(t, j, NotLineTerminator) == j + 1;
    assert t[j..j + 1] == [t[j]];
    RestOfLineRun(t, j);
    assert RemarkStart(t, a, j);
  }

  /** A text with the remark shape is the one the recogniser returns. */
  lemma RemarkTextComplete(t: string, a: nat, s: nat, text: string)
    requires a < |t| && t[a] == ';' && (forall k :: 0 <= k < a ==> IsSpace(t[k]))
    requires RemarkStart(t, a, s) && |text| > 0 && RestOfLineAt(t, s, text)
    ensures RemarkText(t) == Some(text)
  {
    assert RunEnd(t, 0, IsSpace) == a;
    var b := RunEnd(t, a + 1, IsSpace);
    assert !IsLineTerminator(t[s]) by { assert t[s] == text[0]; }
    RestOfLineUnique(t, s, text);
    if !IsSpace(t[s]) {
      assert b == s;
    } else {
      assert b == |t| by {
        forall k | a < k < |t| ensures IsSpace(t[k]) {
          if s < k {
            assert IsLineTerminator(t[k]);
          }
        }
      }
      assert LastNonTerminator(t, a + 1, b).value == s;
      assert s + 1 == |t| || IsLineTerminator(t[s + 1]);
      assert RunEnd(t, s, NotLineTerminator) == s + 1;
      assert text == [t[s]];
    }
  }

  /** `Parser.getRemarkByLine`: no remark above the first line. */
  function GetRemark(doc: Document, line: int): (r: Option<string>)
    requires line < |doc.lines|
    ensures line < 0 ==> r.None?
    ensures 0 <= line ==> (r.Some? <==> IsRemarkLine(doc.lines[line]))
    ensures 0 <= line && r.Some? ==> RemarkAt(doc.lines[line], r.value)
    ensures r.Some? ==> |r.value| > 0 && NoLineTerminator(r.value)
  {
    if line >= 0 then
      RemarkTextSpec(doc.lines[line]);
      var r := RemarkText(doc.lines[line]);
      if r.Some? then RemarkTextContent(doc.lines[line], r.value); r else r
    else None
  }

  // -------------------------------------------------------- block comments

  /** A two-character string is contained exactly where its two characters stand next to each other. */
  lemma PairContains(t: string, a: char, b: char)
    ensures Contains(t, [a, b]) <==> exists i :: 0 <= i < |t| - 1 && t[i] == a && t[i + 1] == b
  {
    var pair := [a, b];
    var k := IndexOf(t, pair);
    if k >= 0 {
      assert t[k..k + 2][0] == t[k] && t[k..k + 2][1] == t[k + 1];
    }
    if i :| 0 <= i < |t| - 1 && t[i] == a && t[i + 1] == b {
      PairAt(t, i, pair);
    }
  }

  lemma PairAt(t: string, i: nat, pair: string)
    requires |pair| == 2 && i < |t| - 1 && t[i] == pair[0] && t[i + 1] == pair[1]
    ensures Contains(t, pair)
  {
    assert t[i..i + 2] == pair;
    assert IndexOfFrom(t, pair, 0) == -1 ==> !OccursAt(t, pair, i);
  }

  /**
   * The start pattern is optional spaces then slash-star, so it matches
   * wherever the two characters slash and star occur in the raw line.
   */
  predicate OpensBlockComment(t: string): (r: bool)
    ensures r <==> exists i :: 0 <= i < |t| - 1 && t[i] == '/' && t[i + 1] == '*'
  {
    PairContains(t, '/', '*');
    Contains(t, ['/', '*'])
  }

  /** The end pattern is optional spaces then star-slash: it matches wherever those two characters occur. */
  predicate ClosesBlockComment(t: string): (r: bool)
    ensures r <==> exists i :: 0 <= i < |t| - 1 && t[i] == '*' && t[i + 1] == '/'
  {
    PairContains(t, '*', '/');
    Contains(t, ['*', '/'])
  }
}
