/**
 * Which lines the scan reads: the block-comment flag before each line, as a
 * function of the document alone, and the lines whose method, label, hotkey
 * or block the scan records.
 */
module LineReads {
  import opened Wrappers
  import opened Symbols
  import opened LineDetectors
  import opened MethodDetector
  import opened Builder

  /** Whether the first `k` lines leave the scan inside a block comment. */
  ghost function InComment(doc: Document, k: nat): bool
    requires k <= |doc.lines|
  {
    if k == 0 then Initial.blockComment else CommentFlag(doc.lines[k - 1], InComment(doc, k - 1))
  }

  /** Line `j` is outside a block comment and declares no method. */
  ghost predicate Reads(host: Host, doc: Document, j: nat) {
    && j < |doc.lines|
    && !CommentFlag(doc.lines[j], InComment(doc, j))
    && !DetectMethod(host, doc, j, doc.lines[j]).Decl?
  }

  /** The scan reads line `j`, and the line yields label `l`. */
  ghost predicate LabelRead(host: Host, doc: Document, j: nat, l: Label) {
    Reads(host, doc, j) && GetLabel(host, doc, j) == Some(l)
  }

  /** The scan reads line `j`, and the line yields no label and hotkey `h`. */
  ghost predicate HotkeyRead(host: Host, doc: Document, j: nat, h: Hotkey) {
    Reads(host, doc, j) && GetLabel(host, doc, j).None? && GetHotkey(host, doc, j) == Some(h)
  }

  /** Line `j` is outside a block comment and declares `m`. */
  ghost predicate MethodRead(host: Host, doc: Document, j: nat, m: Method) {
    && j < |doc.lines|
    && !CommentFlag(doc.lines[j], InComment(doc, j))
    && DetectMethod(host, doc, j, doc.lines[j]) == Decl(m)
  }

  /** The scan reads line `j`, which yields no label and no hotkey, and block `b`. */
  ghost predicate BlockRead(host: Host, doc: Document, j: nat, b: Block) {
    && Reads(host, doc, j)
    && GetLabel(host, doc, j).None? && GetHotkey(host, doc, j).None?
    && GetBlock(doc, j) == Some(b)
  }
}

/**
 * The invariant of `ScanInvariant` holds after every successful scan, and so
 * for every script `BuildScript` stores.
 */
module BuildInvariant {
  import opened Wrappers
  import opened Symbols
  import opened LineDetectors
  import opened MethodDetector
  import opened ScriptCache
  import opened Builder
  import opened ScanInvariant
  import opened LineReads

  /** Every successful scan prefix satisfies the invariant. */
  lemma {:induction false} ScanWf(host: Host, doc: Document, k: nat)
    requires k <= |doc.lines|
    requires WellBehaved(host)
    ensures ScanTo(host, doc, k).Success? ==> Wf(ScanTo(host, doc, k).value.script, doc, k)
  {
    if k > 0 {
      var j := k - 1;
      ScanWf(host, doc, j);
      ScanStepWf(host, doc, j);
    }
  }

  /** If the scan of `j` lines satisfies the invariant, so does the scan of `j + 1` lines. */
  lemma ScanStepWf(host: Host, doc: Document, j: nat)
    requires j < |doc.lines|
    requires WellBehaved(host)
    requires ScanTo(host, doc, j).Success? ==> Wf(ScanTo(host, doc, j).value.script, doc, j)
    ensures ScanTo(host, doc, j + 1).Success? ==> Wf(ScanTo(host, doc, j + 1).value.script, doc, j + 1)
  {
    var r := ScanTo(host, doc, j);
    if r.Success? {
      StepWf(host, doc, j, r.value);
    }
  }

  /**
   * A script that `BuildScript` computes afresh satisfies the invariant for
   * the number of lines it scanned: items on scanned lines of this document,
   * one label, hotkey, block or method per line in line order, no `case` or
   * `default` label, a reference for each declared method, and distinct
   * document-level variable names.
   */
  lemma BuildScriptWf(host: Host, cache: Cache, doc: Document, options: BuildOptions, configured: int)
    requires Valid(cache)
    requires WellBehaved(host)
    requires !(options.usingCache && doc.path in cache.entries)
    requires BuildScript(host, cache, doc, options, configured).Success?
    ensures Wf(BuildScript(host, cache, doc, options, configured).value.0, doc,
               LinesToParse(|doc.lines|, ParseLimit(options, configured)))
  {
    var n := LinesToParse(|doc.lines|, ParseLimit(options, configured));
    ScanWf(host, doc, n);
  }

  // ------------------------------------------------- every line is scanned

  /** When the scan of `n` lines succeeds, so does the scan of every `j <= n`. */
  lemma ScanToSucceeds(host: Host, doc: Document, n: nat, j: nat)
    requires j <= n <= |doc.lines|
    ensures ScanTo(host, doc, n).Success? ==> ScanTo(host, doc, j).Success?
  {
    var i := n;
    while i > j
      invariant j <= i <= n
      invariant ScanTo(host, doc, n).Success? ==> ScanTo(host, doc, i).Success?
    {
      ScanToLast(host, doc, i);
      i := i - 1;
    }
  }

  /** A successful scan of `k > 0` lines is a successful scan of `k - 1` lines and one step. */
  lemma ScanToLast(host: Host, doc: Document, k: nat)
    requires 0 < k <= |doc.lines|
    ensures ScanTo(host, doc, k).Success? ==>
      && ScanTo(host, doc, k - 1).Success?
      && ScanTo(host, doc, k) == Step(host, doc, k - 1, ScanTo(host, doc, k - 1).value)
  {
  }

  /**
   * When the scan of `n` lines succeeds, every line `k - 1 < n` was stepped
   * through: the scan of `k - 1` lines succeeds and one step on line `k - 1`
   * gives the scan of `k` lines.
   */
  lemma ScanToStep(host: Host, doc: Document, n: nat, k: nat)
    requires 0 < k <= n <= |doc.lines|
    ensures ScanTo(host, doc, n).Success? ==>
      && ScanTo(host, doc, k - 1).Success?
      && ScanTo(host, doc, k) == Step(host, doc, k - 1, ScanTo(host, doc, k - 1).value)
  {
    ScanToSucceeds(host, doc, n, k);
    ScanToLast(host, doc, k);
  }

  /** The scan state carries the block-comment flag of the lines before it. */
  lemma {:induction false} ScanComment(host: Host, doc: Document, k: nat)
    requires k <= |doc.lines|
    ensures ScanTo(host, doc, k).Success? ==> ScanTo(host, doc, k).value.blockComment == InComment(doc, k)
  {
    if k > 0 {
      var j := k - 1;
      ScanComment(host, doc, j);
      ScanStepComment(host, doc, j);
    }
  }

  /** If the scan of `j` lines carries the flag, so does the scan of `j + 1` lines. */
  lemma ScanStepComment(host: Host, doc: Document, j: nat)
    requires j < |doc.lines|
    requires ScanTo(host, doc, j).Success? ==> ScanTo(host, doc, j).value.blockComment == InComment(doc, j)
    ensures ScanTo(host, doc, j + 1).Success? ==> ScanTo(host, doc, j + 1).value.blockComment == InComment(doc, j + 1)
  {
    var r := ScanTo(host, doc, j);
    if r.Success? && Step(host, doc, j, r.value).Success? {
      StepLine(host, doc, j, r.value);
    }
  }

  /**
   * A step from the state that carries line `j`'s flag moves the flag on,
   * and on a line it reads appends the line's label, or else its hotkey.
   */
  lemma StepLine(host: Host, doc: Document, j: nat, st: State)
    requires j < |doc.lines|
    requires st.blockComment == InComment(doc, j)
    requires Step(host, doc, j, st).Success?
    ensures Step(host, doc, j, st).value.blockComment == InComment(doc, j + 1)
    ensures Reads(host, doc, j) && GetLabel(host, doc, j).Some? ==>
      Step(host, doc, j, st).value.script.labels == st.script.labels + [GetLabel(host, doc, j).value]
    ensures Reads(host, doc, j) && GetLabel(host, doc, j).None? && GetHotkey(host, doc, j).Some? ==>
      Step(host, doc, j, st).value.script.hotkeys == st.script.hotkeys + [GetHotkey(host, doc, j).value]
  {
  }

  /** The lists of `s` open the lists of `s'` (methods aside, whose last element a line may rewrite). */
  ghost predicate Keeps(s: Script, s': Script) {
    && IsPrefix(s.labels, s'.labels)
    && IsPrefix(s.hotkeys, s'.hotkeys)
    && IsPrefix(s.blocks, s'.blocks)
    && IsPrefix(s.refs, s'.refs)
    && IsPrefix(s.variables, s'.variables)
  }

  lemma PrefixTrans<T>(a: seq<T>, b: seq<T>, c: seq<T>)
    requires IsPrefix(a, b) && IsPrefix(b, c)
    ensures IsPrefix(a, c)
  {
    assert c[..|a|] == c[..|b|][..|a|];
  }

  lemma KeepsTrans(s0: Script, s1: Script, s2: Script)
    requires Keeps(s0, s1) && Keeps(s1, s2)
    ensures Keeps(s0, s2)
  {
    PrefixTrans(s0.labels, s1.labels, s2.labels);
    PrefixTrans(s0.hotkeys, s1.hotkeys, s2.hotkeys);
    PrefixTrans(s0.blocks, s1.blocks, s2.blocks);
    PrefixTrans(s0.refs, s1.refs, s2.refs);
    PrefixTrans(s0.variables, s1.variables, s2.variables);
  }

  /** If the scan of `i` lines keeps what `s0` lists, so does the scan of `i + 1` lines. */
  lemma ScanStepKeeps(host: Host, doc: Document, i: nat, s0: Script)
    requires WellBehaved(host)
    requires i < |doc.lines|
    requires ScanTo(host, doc, i).Success? ==> Keeps(s0, ScanTo(host, doc, i).value.script)
    ensures ScanTo(host, doc, i + 1).Success? ==> Keeps(s0, ScanTo(host, doc, i + 1).value.script)
  {
    var r := ScanTo(host, doc, i);
    if r.Success? && Step(host, doc, i, r.value).Success? {
      StepGrows(host, doc, i, r.value);
      KeepsTrans(s0, r.value.script, Step(host, doc, i, r.value).value.script);
    }
  }

  lemma KeepsSame(host: Host, doc: Document, i: nat, k: nat, s0: Script)
    requires i == k <= |doc.lines|
    requires ScanTo(host, doc, i).Success? ==> Keeps(s0, ScanTo(host, doc, i).value.script)
    ensures ScanTo(host, doc, k).Success? ==> Keeps(s0, ScanTo(host, doc, k).value.script)
  {
  }

  /** What the scan of `j + 1` lines keeps of `s0`, every longer scan keeps. */
  lemma KeepsFrom(host: Host, doc: Document, j: nat, n: nat, s0: Script)
    requires WellBehaved(host)
    requires j < n <= |doc.lines|
    requires ScanTo(host, doc, j + 1).Success? ==> Keeps(s0, ScanTo(host, doc, j + 1).value.script)
    ensures ScanTo(host, doc, n).Success? ==> Keeps(s0, ScanTo(host, doc, n).value.script)
  {
    var i := j + 1;
    while i < n
      invariant j < i <= n
      invariant ScanTo(host, doc, i).Success? ==> Keeps(s0, ScanTo(host, doc, i).value.script)
    {
      ScanStepKeeps(host, doc, i, s0);
      i := i + 1;
    }
    KeepsSame(host, doc, i, n, s0);
  }

  lemma KeepsRefl(s: Script)
    ensures Keeps(s, s)
  {
    assert s.labels[..|s.labels|] == s.labels;
    assert s.hotkeys[..|s.hotkeys|] == s.hotkeys;
    assert s.blocks[..|s.blocks|] == s.blocks;
    assert s.refs[..|s.refs|] == s.refs;
    assert s.variables[..|s.variables|] == s.variables;
  }

  /**
   * A later scan keeps, in order, everything an earlier one listed: the
   * scan of `k > 0` lines grows into the scan of `n` lines. (The scan of no
   * lines lists nothing.)
   */
  lemma ScanToKeeps(host: Host, doc: Document, k: nat, n: nat)
    requires WellBehaved(host)
    requires 0 < k <= n <= |doc.lines|
    ensures ScanTo(host, doc, n).Success? ==>
      && ScanTo(host, doc, k).Success?
      && Keeps(ScanTo(host, doc, k).value.script, ScanTo(host, doc, n).value.script)
  {
    ScanToSucceeds(host, doc, n, k);
    var r := ScanTo(host, doc, k);
    if r.Success? {
      KeepsRefl(r.value.script);
      var j := k - 1;
      KeepsFrom(host, doc, j, n, r.value.script);
    }
  }

  // ---------------------------------------------------------------- labels

  /** The scan of `j + 1` lines succeeds only with the label line `j` yields at position `p`. */
  lemma ScanAddsLabel(host: Host, doc: Document, j: nat, l: Label) returns (p: nat)
    requires LabelRead(host, doc, j, l)
    ensures ScanTo(host, doc, j + 1).Success? ==>
      p < |ScanTo(host, doc, j + 1).value.script.labels| && ScanTo(host, doc, j + 1).value.script.labels[p] == l
  {
    ScanComment(host, doc, j);
    var r := ScanTo(host, doc, j);
    p := 0;
    if r.Success? && Step(host, doc, j, r.value).Success? {
      StepLine(host, doc, j, r.value);
      p := |r.value.script.labels|;
    }
  }

  /** One more line keeps the label at position `p`. */
  lemma ScanStepKeepsLabel(host: Host, doc: Document, i: nat, p: nat, l: Label)
    requires WellBehaved(host)
    requires i < |doc.lines|
    requires ScanTo(host, doc, i).Success? ==>
      p < |ScanTo(host, doc, i).value.script.labels| && ScanTo(host, doc, i).value.script.labels[p] == l
    ensures ScanTo(host, doc, i + 1).Success? ==>
      p < |ScanTo(host, doc, i + 1).value.script.labels| && ScanTo(host, doc, i + 1).value.script.labels[p] == l
  {
    var r := ScanTo(host, doc, i);
    if r.Success? && Step(host, doc, i, r.value).Success? {
      StepGrows(host, doc, i, r.value);
    }
  }

  lemma KeepsLabelSame(host: Host, doc: Document, i: nat, k: nat, p: nat, l: Label)
    requires i == k <= |doc.lines|
    requires ScanTo(host, doc, i).Success? ==>
      p < |ScanTo(host, doc, i).value.script.labels| && ScanTo(host, doc, i).value.script.labels[p] == l
    ensures ScanTo(host, doc, k).Success? ==>
      p < |ScanTo(host, doc, k).value.script.labels| && ScanTo(host, doc, k).value.script.labels[p] == l
  {
  }

  /** The label the scan of `j + 1` lines holds at `p`, every longer scan holds there. */
  lemma KeepsLabelFrom(host: Host, doc: Document, j: nat, k: nat, p: nat, l: Label)
    requires WellBehaved(host)
    requires j < k <= |doc.lines|
    requires ScanTo(host, doc, j + 1).Success? ==>
      p < |ScanTo(host, doc, j + 1).value.script.labels| && ScanTo(host, doc, j + 1).value.script.labels[p] == l
    ensures ScanTo(host, doc, k).Success? ==>
      p < |ScanTo(host, doc, k).value.script.labels| && ScanTo(host, doc, k).value.script.labels[p] == l
  {
    var i := j + 1;
    while i < k
      invariant j < i <= k
      invariant ScanTo(host, doc, i).Success? ==>
        p < |ScanTo(host, doc, i).value.script.labels| && ScanTo(host, doc, i).value.script.labels[p] == l
    {
      ScanStepKeepsLabel(host, doc, i, p, l);
      i := i + 1;
    }
    KeepsLabelSame(host, doc, i, k, p, l);
  }

  /**
   * Every line below `k` is scanned: the label of a line `j < k` that is
   * outside a block comment and declares no method is among the labels of
   * the scan of `k` lines.
   */
  lemma ScanHasLabel(host: Host, doc: Document, k: nat, j: nat, l: Label)
    requires WellBehaved(host)
    requires j < k <= |doc.lines|
    requires LabelRead(host, doc, j, l)
    ensures ScanTo(host, doc, k).Success? ==> l in ScanTo(host, doc, k).value.script.labels
  {
    var p := ScanAddsLabel(host, doc, j, l);
    KeepsLabelFrom(host, doc, j, k, p, l);
  }

  // --------------------------------------------------------------- hotkeys

  /** The scan of `j + 1` lines succeeds only with the hotkey line `j` yields at position `p`. */
  lemma ScanAddsHotkey(host: Host, doc: Document, j: nat, h: Hotkey) returns (p: nat)
    requires HotkeyRead(host, doc, j, h)
    ensures ScanTo(host, doc, j + 1).Success? ==>
      p < |ScanTo(host, doc, j + 1).value.script.hotkeys| && ScanTo(host, doc, j + 1).value.script.hotkeys[p] == h
  {
    ScanComment(host, doc, j);
    var r := ScanTo(host, doc, j);
    p := 0;
    if r.Success? && Step(host, doc, j, r.value).Success? {
      StepLine(host, doc, j, r.value);
      p := |r.value.script.hotkeys|;
    }
  }

  /** One more line keeps the hotkey at position `p`. */
  lemma ScanStepKeepsHotkey(host: Host, doc: Document, i: nat, p: nat, h: Hotkey)
    requires WellBehaved(host)
    requires i < |doc.lines|
    requires ScanTo(host, doc, i).Success? ==>
      p < |ScanTo(host, doc, i).value.script.hotkeys| && ScanTo(host, doc, i).value.script.hotkeys[p] == h
    ensures ScanTo(host, doc, i + 1).Success? ==>
      p < |ScanTo(host, doc, i + 1).value.script.hotkeys| && ScanTo(host, doc, i + 1).value.script.hotkeys[p] == h
  {
    var r := ScanTo(host, doc, i);
    if r.Success? && Step(host, doc, i, r.value).Success? {
      StepGrows(host, doc, i, r.value);
    }
  }

  lemma KeepsHotkeySame(host: Host, doc: Document, i: nat, k: nat, p: nat, h: Hotkey)
    requires i == k <= |doc.lines|
    requires ScanTo(host, doc, i).Success? ==>
      p < |ScanTo(host, doc, i).value.script.hotkeys| && ScanTo(host, doc, i).value.script.hotkeys[p] == h
    ensures ScanTo(host, doc, k).Success? ==>
      p < |ScanTo(host, doc, k).value.script.hotkeys| && ScanTo(host, doc, k).value.script.hotkeys[p] == h
  {
  }

  /** The hotkey the scan of `j + 1` lines holds at `p`, every longer scan holds there. */
  lemma KeepsHotkeyFrom(host: Host, doc: Document, j: nat, k: nat, p: nat, h: Hotkey)
    requires WellBehaved(host)
    requires j < k <= |doc.lines|
    requires ScanTo(host, doc, j + 1).Success? ==>
      p < |ScanTo(host, doc, j + 1).value.script.hotkeys| && ScanTo(host, doc, j + 1).value.script.hotkeys[p] == h
    ensures ScanTo(host, doc, k).Success? ==>
      p < |ScanTo(host, doc, k).value.script.hotkeys| && ScanTo(host, doc, k).value.script.hotkeys[p] == h
  {
    var i := j + 1;
    while i < k
      invariant j < i <= k
      invariant ScanTo(host, doc, i).Success? ==>
        p < |ScanTo(host, doc, i).value.script.hotkeys| && ScanTo(host, doc, i).value.script.hotkeys[p] == h
    {
      ScanStepKeepsHotkey(host, doc, i, p, h);
      i := i + 1;
    }
    KeepsHotkeySame(host, doc, i, k, p, h);
  }

  /** As `ScanHasLabel`, for the hotkey of a line that yields no label. */
  lemma ScanHasHotkey(host: Host, doc: Document, k: nat, j: nat, h: Hotkey)
    requires WellBehaved(host)
    requires j < k <= |doc.lines|
    requires HotkeyRead(host, doc, j, h)
    ensures ScanTo(host, doc, k).Success? ==> h in ScanTo(host, doc, k).value.script.hotkeys
  {
    var p := ScanAddsHotkey(host, doc, j, h);
    KeepsHotkeyFrom(host, doc, j, k, p, h);
  }

  // ---------------------------------------------------------------- blocks

  /** The scan of `j + 1` lines succeeds only with the block line `j` yields at position `p`. */
  lemma ScanAddsBlock(host: Host, doc: Document, j: nat, b: Block) returns (p: nat)
    requires BlockRead(host, doc, j, b)
    ensures ScanTo(host, doc, j + 1).Success? ==>
      p < |ScanTo(host, doc, j + 1).value.script.blocks| && ScanTo(host, doc, j + 1).value.script.blocks[p] == b
  {
    ScanComment(host, doc, j);
    var r := ScanTo(host, doc, j);
    p := 0;
    if r.Success? && Step(host, doc, j, r.value).Success? {
      StepOrdinary(host, doc, j, r.value);
      p := |r.value.script.blocks|;
    }
  }

  /** One more line keeps the block at position `p`. */
  lemma ScanStepKeepsBlock(host: Host, doc: Document, i: nat, p: nat, b: Block)
    requires WellBehaved(host)
    requires i < |doc.lines|
    requires ScanTo(host, doc, i).Success? ==>
      p < |ScanTo(host, doc, i).value.script.blocks| && ScanTo(host, doc, i).value.script.blocks[p] == b
    ensures ScanTo(host, doc, i + 1).Success? ==>
      p < |ScanTo(host, doc, i + 1).value.script.blocks| && ScanTo(host, doc, i + 1).value.script.blocks[p] == b
  {
    var r := ScanTo(host, doc, i);
    if r.Success? && Step(host, doc, i, r.value).Success? {
      StepGrows(host, doc, i, r.value);
    }
  }

  lemma KeepsBlockSame(host: Host, doc: Document, i: nat, k: nat, p: nat, b: Block)
    requires i == k <= |doc.lines|
    requires ScanTo(host, doc, i).Success? ==>
      p < |ScanTo(host, doc, i).value.script.blocks| && ScanTo(host, doc, i).value.script.blocks[p] == b
    ensures ScanTo(host, doc, k).Success? ==>
      p < |ScanTo(host, doc, k).value.script.blocks| && ScanTo(host, doc, k).value.script.blocks[p] == b
  {
  }

  /** The block the scan of `j + 1` lines holds at `p`, every longer scan holds there. */
  lemma KeepsBlockFrom(host: Host, doc: Document, j: nat, k: nat, p: nat, b: Block)
    requires WellBehaved(host)
    requires j < k <= |doc.lines|
    requires ScanTo(host, doc, j + 1).Success? ==>
      p < |ScanTo(host, doc, j + 1).value.script.blocks| && ScanTo(host, doc, j + 1).value.script.blocks[p] == b
    ensures ScanTo(host, doc, k).Success? ==>
      p < |ScanTo(host, doc, k).value.script.blocks| && ScanTo(host, doc, k).value.script.blocks[p] == b
  {
    var i := j + 1;
    while i < k
      invariant j < i <= k
      invariant ScanTo(host, doc, i).Success? ==>
        p < |ScanTo(host, doc, i).value.script.blocks| && ScanTo(host, doc, i).value.script.blocks[p] == b
    {
      ScanStepKeepsBlock(host, doc, i, p, b);
      i := i + 1;
    }
    KeepsBlockSame(host, doc, i, k, p, b);
  }

  /** As `ScanHasLabel`, for the block of a line that yields no label and no hotkey. */
  lemma ScanHasBlock(host: Host, doc: Document, k: nat, j: nat, b: Block)
    requires WellBehaved(host)
    requires j < k <= |doc.lines|
    requires BlockRead(host, doc, j, b)
    ensures ScanTo(host, doc, k).Success? ==> b in ScanTo(host, doc, k).value.script.blocks
  {
    var p := ScanAddsBlock(host, doc, j, b);
    KeepsBlockFrom(host, doc, j, k, p, b);
  }

  // ------------------------------------------------------- methods and refs

  /** One more line keeps the reference at position `p`. */
  lemma ScanStepKeepsRef(host: Host, doc: Document, i: nat, p: nat, r: Ref)
    requires WellBehaved(host)
    requires i < |doc.lines|
    requires ScanTo(host, doc, i).Success? ==>
      p < |ScanTo(host, doc, i).value.script.refs| && ScanTo(host, doc, i).value.script.refs[p] == r
    ensures ScanTo(host, doc, i + 1).Success? ==>
      p < |ScanTo(host, doc, i + 1).value.script.refs| && ScanTo(host, doc, i + 1).value.script.refs[p] == r
  {
    var r := ScanTo(host, doc, i);
    if r.Success? && Step(host, doc, i, r.value).Success? {
      StepGrows(host, doc, i, r.value);
    }
  }

  lemma KeepsRefSame(host: Host, doc: Document, i: nat, k: nat, p: nat, r: Ref)
    requires i == k <= |doc.lines|
    requires ScanTo(host, doc, i).Success? ==>
      p < |ScanTo(host, doc, i).value.script.refs| && ScanTo(host, doc, i).value.script.refs[p] == r
    ensures ScanTo(host, doc, k).Success? ==>
      p < |ScanTo(host, doc, k).value.script.refs| && ScanTo(host, doc, k).value.script.refs[p] == r
  {
  }

  /** The reference the scan of `j + 1` lines holds at `p`, every longer scan holds there. */
  lemma KeepsRefFrom(host: Host, doc: Document, j: nat, k: nat, p: nat, r: Ref)
    requires WellBehaved(host)
    requires j < k <= |doc.lines|
    requires ScanTo(host, doc, j + 1).Success? ==>
      p < |ScanTo(host, doc, j + 1).value.script.refs| && ScanTo(host, doc, j + 1).value.script.refs[p] == r
    ensures ScanTo(host, doc, k).Success? ==>
      p < |ScanTo(host, doc, k).value.script.refs| && ScanTo(host, doc, k).value.script.refs[p] == r
  {
    var i := j + 1;
    while i < k
      invariant j < i <= k
      invariant ScanTo(host, doc, i).Success? ==>
        p < |ScanTo(host, doc, i).value.script.refs| && ScanTo(host, doc, i).value.script.refs[p] == r
    {
      ScanStepKeepsRef(host, doc, i, p, r);
      i := i + 1;
    }
    KeepsRefSame(host, doc, i, k, p, r);
  }

  /** `m'` is the method `m` declared, with at most its end line and variables filled in since. */
  ghost predicate SameDeclaration(m: Method, m': Method) {
    m'.(endLine := m.endLine, variables := m.variables) == m
  }

  /**
   * The scan of `j + 1` lines succeeds only with the method line `j`
   * declares at position `p` of its methods and, at position `q` of its
   * references, the reference that records the declaration.
   */
  lemma ScanAddsMethod(host: Host, doc: Document, j: nat, m: Method) returns (p: nat, q: nat)
    requires MethodRead(host, doc, j, m)
    ensures ScanTo(host, doc, j + 1).Success? ==>
      p < |ScanTo(host, doc, j + 1).value.script.methods| && SameDeclaration(m, ScanTo(host, doc, j + 1).value.script.methods[p])
    ensures ScanTo(host, doc, j + 1).Success? ==>
      q < |ScanTo(host, doc, j + 1).value.script.refs| && ScanTo(host, doc, j + 1).value.script.refs[q] == Ref(m.name, doc.path, j, m.character)
  {
    ScanComment(host, doc, j);
    var r := ScanTo(host, doc, j);
    p, q := 0, 0;
    if r.Success? {
      StepDeclares(host, doc, j, r.value);
      p, q := |r.value.script.methods|, |r.value.script.refs|;
    }
  }

  /** One more line keeps the declaration at position `p`. */
  lemma ScanStepKeepsMethod(host: Host, doc: Document, i: nat, p: nat, m: Method)
    requires WellBehaved(host)
    requires i < |doc.lines|
    requires ScanTo(host, doc, i).Success? ==>
      p < |ScanTo(host, doc, i).value.script.methods| && SameDeclaration(m, ScanTo(host, doc, i).value.script.methods[p])
    ensures ScanTo(host, doc, i + 1).Success? ==>
      p < |ScanTo(host, doc, i + 1).value.script.methods| && SameDeclaration(m, ScanTo(host, doc, i + 1).value.script.methods[p])
  {
    var r := ScanTo(host, doc, i);
    if r.Success? && Step(host, doc, i, r.value).Success? {
      StepGrows(host, doc, i, r.value);
      MethodsStay(r.value.script.methods, Step(host, doc, i, r.value).value.script.methods, doc, i, p, m);
    }
  }

  lemma MethodsStay(a: seq<Method>, b: seq<Method>, doc: Document, line: nat, p: nat, m: Method)
    requires MethodsGrow(a, b, doc, line)
    requires p < |a| && SameDeclaration(m, a[p])
    ensures p < |b| && SameDeclaration(m, b[p])
  {
    if p == |a| - 1 {
      assert MethodGrows(a[p], b[p], doc.path, line);
    }
  }

  lemma KeepsMethodSame(host: Host, doc: Document, i: nat, k: nat, p: nat, m: Method)
    requires i == k <= |doc.lines|
    requires ScanTo(host, doc, i).Success? ==>
      p < |ScanTo(host, doc, i).value.script.methods| && SameDeclaration(m, ScanTo(host, doc, i).value.script.methods[p])
    ensures ScanTo(host, doc, k).Success? ==>
      p < |ScanTo(host, doc, k).value.script.methods| && SameDeclaration(m, ScanTo(host, doc, k).value.script.methods[p])
  {
  }

  /** The declaration the scan of `j + 1` lines holds at `p`, every longer scan holds there. */
  lemma KeepsMethodFrom(host: Host, doc: Document, j: nat, k: nat, p: nat, m: Method)
    requires WellBehaved(host)
    requires j < k <= |doc.lines|
    requires ScanTo(host, doc, j + 1).Success? ==>
      p < |ScanTo(host, doc, j + 1).value.script.methods| && SameDeclaration(m, ScanTo(host, doc, j + 1).value.script.methods[p])
    ensures ScanTo(host, doc, k).Success? ==>
      p < |ScanTo(host, doc, k).value.script.methods| && SameDeclaration(m, ScanTo(host, doc, k).value.script.methods[p])
  {
    var i := j + 1;
    while i < k
      invariant j < i <= k
      invariant ScanTo(host, doc, i).Success? ==>
        p < |ScanTo(host, doc, i).value.script.methods| && SameDeclaration(m, ScanTo(host, doc, i).value.script.methods[p])
    {
      ScanStepKeepsMethod(host, doc, i, p, m);
      i := i + 1;
    }
    KeepsMethodSame(host, doc, i, k, p, m);
  }

  /**
   * The method a line `j < k` outside a block comment declares is among the
   * methods of the scan of `k` lines, with at most its end line and
   * variables filled in by later lines; the reference that records the
   * declaration's name, line and column is among its references.
   */
  lemma ScanHasMethod(host: Host, doc: Document, k: nat, j: nat, m: Method)
    requires WellBehaved(host)
    requires j < k <= |doc.lines|
    requires MethodRead(host, doc, j, m)
    ensures ScanTo(host, doc, k).Success? ==>
      exists p :: 0 <= p < |ScanTo(host, doc, k).value.script.methods|
        && SameDeclaration(m, ScanTo(host, doc, k).value.script.methods[p])
    ensures ScanTo(host, doc, k).Success? ==> Ref(m.name, doc.path, j, m.character) in ScanTo(host, doc, k).value.script.refs
  {
    var p, q := ScanAddsMethod(host, doc, j, m);
    KeepsMethodFrom(host, doc, j, k, p, m);
    KeepsRefFrom(host, doc, j, k, q, Ref(m.name, doc.path, j, m.character));
  }

  // ---------------------------------------------------------- BuildScript

  /**
   * The script `BuildScript` computes afresh is the scan of every line below
   * the parse limit, and that scan succeeds.
   */
  lemma BuildScriptScans(host: Host, cache: Cache, doc: Document, options: BuildOptions, configured: int)
    requires Valid(cache)
    requires !(options.usingCache && doc.path in cache.entries)
    requires BuildScript(host, cache, doc, options, configured).Success?
    ensures ScanTo(host, doc, LinesToParse(|doc.lines|, ParseLimit(options, configured))).Success?
    ensures BuildScript(host, cache, doc, options, configured).value.0 ==
      ScanTo(host, doc, LinesToParse(|doc.lines|, ParseLimit(options, configured))).value.script
  {
  }

  /**
   * The label of every line below the parse limit that is outside a block
   * comment and declares no method is in the script `BuildScript` computes.
   */
  lemma BuildScriptHasLabel(host: Host, cache: Cache, doc: Document, options: BuildOptions, configured: int,
                            j: nat, l: Label)
    requires Valid(cache)
    requires WellBehaved(host)
    requires !(options.usingCache && doc.path in cache.entries)
    requires BuildScript(host, cache, doc, options, configured).Success?
    requires j < LinesToParse(|doc.lines|, ParseLimit(options, configured))
    requires LabelRead(host, doc, j, l)
    ensures l in BuildScript(host, cache, doc, options, configured).value.0.labels
  {
    var n := LinesToParse(|doc.lines|, ParseLimit(options, configured));
    BuildScriptScans(host, cache, doc, options, configured);
    ScanHasLabel(host, doc, n, j, l);
  }

  /** As `BuildScriptHasLabel`, for the hotkey of a line that yields no label. */
  lemma BuildScriptHasHotkey(host: Host, cache: Cache, doc: Document, options: BuildOptions, configured: int,
                             j: nat, h: Hotkey)
    requires Valid(cache)
    requires WellBehaved(host)
    requires !(options.usingCache && doc.path in cache.entries)
    requires BuildScript(host, cache, doc, options, configured).Success?
    requires j < LinesToParse(|doc.lines|, ParseLimit(options, configured))
    requires HotkeyRead(host, doc, j, h)
    ensures h in BuildScript(host, cache, doc, options, configured).value.0.hotkeys
  {
    var n := LinesToParse(|doc.lines|, ParseLimit(options, configured));
    BuildScriptScans(host, cache, doc, options, configured);
    ScanHasHotkey(host, doc, n, j, h);
  }

  /**
   * The method every line below the parse limit outside a block comment
   * declares is in the script `BuildScript` computes, with the reference that
   * records its name, line and column.
   */
  lemma BuildScriptHasMethod(host: Host, cache: Cache, doc: Document, options: BuildOptions, configured: int,
                             j: nat, m: Method)
    requires Valid(cache)
    requires WellBehaved(host)
    requires !(options.usingCache && doc.path in cache.entries)
    requires BuildScript(host, cache, doc, options, configured).Success?
    requires j < LinesToParse(|doc.lines|, ParseLimit(options, configured))
    requires MethodRead(host, doc, j, m)
    ensures exists p :: (0 <= p < |BuildScript(host, cache, doc, options, configured).value.0.methods|
      && SameDeclaration(m, BuildScript(host, cache, doc, options, configured).value.0.methods[p]))
    ensures Ref(m.name, doc.path, j, m.character) in BuildScript(host, cache, doc, options, configured).value.0.refs
  {
    var n := LinesToParse(|doc.lines|, ParseLimit(options, configured));
    BuildScriptScans(host, cache, doc, options, configured);
    ScanHasMethod(host, doc, n, j, m);
  }

  /** As `BuildScriptHasLabel`, for the block of a line that yields no label and no hotkey. */
  lemma BuildScriptHasBlock(host: Host, cache: Cache, doc: Document, options: BuildOptions, configured: int,
                            j: nat, b: Block)
    requires Valid(cache)
    requires WellBehaved(host)
    requires !(options.usingCache && doc.path in cache.entries)
    requires BuildScript(host, cache, doc, options, configured).Success?
    requires j < LinesToParse(|doc.lines|, ParseLimit(options, configured))
    requires BlockRead(host, doc, j, b)
    ensures b in BuildScript(host, cache, doc, options, configured).value.0.blocks
  {
    var n := LinesToParse(|doc.lines|, ParseLimit(options, configured));
    BuildScriptScans(host, cache, doc, options, configured);
    ScanHasBlock(host, doc, n, j, b);
  }
}
