/**
 * What every prefix of a scan guarantees about the lists it has built, and
 * the proof that each line keeps it: items sit on already-scanned lines of
 * the scanned document, each of the label, hotkey, block and method lists has
 * at most one item per line in line order, labels are never `case` or
 * `default`, a method's end and its own variables come after its declaration,
 * each declared method has a reference on its line, and the document-level
 * variables have distinct names.
 */
module ScanInvariant {
  import opened Wrappers
  import opened Text
  import opened Symbols
  import opened LineDetectors
  import opened MethodDetector
  import opened VariableDetector
  import opened Builder

  predicate IsPrefix<T(==)>(a: seq<T>, b: seq<T>) {
    |a| <= |b| && b[..|a|] == a
  }

  // ------------------------------------------------------------ the invariant

  ghost predicate LabelsWf(ls: seq<Label>, path: string, k: nat) {
    && (forall i :: 0 <= i < |ls| ==> ls[i].path == path && ls[i].line < k && !IsReservedLabel(ls[i].name))
    && (forall i, j :: 0 <= i < j < |ls| ==> ls[i].line < ls[j].line)
  }

  ghost predicate HotkeysWf(hs: seq<Hotkey>, path: string, k: nat) {
    && (forall i :: 0 <= i < |hs| ==> hs[i].path == path && hs[i].line < k)
    && (forall i, j :: 0 <= i < j < |hs| ==> hs[i].line < hs[j].line)
  }

  ghost predicate BlocksWf(bs: seq<Block>, path: string, k: nat) {
    && (forall i :: 0 <= i < |bs| ==> bs[i].path == path && bs[i].line < k)
    && (forall i, j :: 0 <= i < j < |bs| ==> bs[i].line < bs[j].line)
  }

  ghost predicate RefsWf(rs: seq<Ref>, path: string, k: nat) {
    forall i :: 0 <= i < |rs| ==> rs[i].path == path && rs[i].line < k
  }

  ghost predicate VarsWf(vs: seq<Variable>, path: string, k: nat) {
    && (forall i :: 0 <= i < |vs| ==> vs[i].path == path && vs[i].line < k)
    && UniqueNames(vs)
  }

  /** One method: declared below `k`, ends after it, owns variables found after it. */
  ghost predicate MethodWf(m: Method, doc: Document, k: nat) {
    && m.uri == doc.uri && m.line < k
    && (m.endLine.Some? ==> m.line < m.endLine.value < k)
    && (forall j :: 0 <= j < |m.variables| ==>
          m.variables[j].path == doc.path && m.line < m.variables[j].line < k)
  }

  ghost predicate MethodsWf(ms: seq<Method>, doc: Document, k: nat) {
    && (forall i :: 0 <= i < |ms| ==> MethodWf(ms[i], doc, k))
    && (forall i, j :: 0 <= i < j < |ms| ==> ms[i].line < ms[j].line)
  }

  /** Every declared method has a reference with its name on its line. */
  ghost predicate DeclaredRefs(ms: seq<Method>, rs: seq<Ref>) {
    forall i :: 0 <= i < |ms| ==> exists j :: 0 <= j < |rs| && rs[j].name == ms[i].name && rs[j].line == ms[i].line
  }

  ghost predicate Wf(s: Script, doc: Document, k: nat) {
    && LabelsWf(s.labels, doc.path, k)
    && HotkeysWf(s.hotkeys, doc.path, k)
    && BlocksWf(s.blocks, doc.path, k)
    && RefsWf(s.refs, doc.path, k)
    && VarsWf(s.variables, doc.path, k)
    && MethodsWf(s.methods, doc, k)
    && DeclaredRefs(s.methods, s.refs)
  }

  // ------------------------------------------------------- what a line adds

  ghost predicate LabelsGrow(a: seq<Label>, b: seq<Label>, path: string, line: nat) {
    && IsPrefix(a, b) && |b| <= |a| + 1
    && forall i :: |a| <= i < |b| ==> b[i].path == path && b[i].line == line && !IsReservedLabel(b[i].name)
  }

  ghost predicate HotkeysGrow(a: seq<Hotkey>, b: seq<Hotkey>, path: string, line: nat) {
    && IsPrefix(a, b) && |b| <= |a| + 1
    && forall i :: |a| <= i < |b| ==> b[i].path == path && b[i].line == line
  }

  ghost predicate BlocksGrow(a: seq<Block>, b: seq<Block>, path: string, line: nat) {
    && IsPrefix(a, b) && |b| <= |a| + 1
    && forall i :: |a| <= i < |b| ==> b[i].path == path && b[i].line == line
  }

  ghost predicate RefsGrow(a: seq<Ref>, b: seq<Ref>, path: string, line: nat) {
    IsPrefix(a, b) && forall i :: |a| <= i < |b| ==> b[i].path == path && b[i].line == line
  }

  ghost predicate VarsGrow(a: seq<Variable>, b: seq<Variable>, path: string, line: nat) {
    && IsPrefix(a, b)
    && (forall i :: |a| <= i < |b| ==> b[i].path == path && b[i].line == line)
    && (UniqueNames(a) ==> UniqueNames(b))
  }

  /** The current method after a line: same declaration, maybe a new end, maybe more variables. */
  ghost predicate MethodGrows(m: Method, m': Method, path: string, line: nat) {
    && m'.(endLine := m.endLine, variables := m.variables) == m
    && (m'.endLine == m.endLine || m'.endLine == Some(line))
    && VarsGrowAny(m.variables, m'.variables, path, line)
  }

  ghost predicate VarsGrowAny(a: seq<Variable>, b: seq<Variable>, path: string, line: nat) {
    IsPrefix(a, b) && forall i :: |a| <= i < |b| ==> b[i].path == path && b[i].line == line
  }

  ghost predicate MethodsGrow(a: seq<Method>, b: seq<Method>, doc: Document, line: nat) {
    && |a| <= |b| <= |a| + 1
    && (forall i :: 0 <= i < |a| - 1 ==> b[i] == a[i])
    && (|a| > 0 ==> MethodGrows(a[|a| - 1], b[|a| - 1], doc.path, line))
    && (|b| > |a| ==> b[|a|].line == line && b[|a|].uri == doc.uri && b[|a|].endLine.None? && b[|a|].variables == [])
  }

  ghost predicate Grows(s: Script, s': Script, doc: Document, line: nat) {
    && LabelsGrow(s.labels, s'.labels, doc.path, line)
    && HotkeysGrow(s.hotkeys, s'.hotkeys, doc.path, line)
    && BlocksGrow(s.blocks, s'.blocks, doc.path, line)
    && RefsGrow(s.refs, s'.refs, doc.path, line)
    && VarsGrow(s.variables, s'.variables, doc.path, line)
    && MethodsGrow(s.methods, s'.methods, doc, line)
    && (|s'.methods| > |s.methods| ==>
          exists j :: |s.refs| <= j < |s'.refs| && s'.refs[j].name == s'.methods[|s.methods|].name && s'.refs[j].line == line)
  }

  // ------------------------------------------------- each stage of a line

  lemma RouteGrows(host: Host, doc: Document, line: nat, st: State, vs: seq<Variable>)
    requires WellBehaved(host)
    requires forall j :: 0 <= j < |vs| ==> vs[j].line == line && vs[j].path == doc.path
    ensures var r := Route(host, st, vs);
      && r.script.(variables := st.script.variables, methods := st.script.methods) == st.script
      && VarsGrow(st.script.variables, r.script.variables, doc.path, line)
      && |r.script.methods| == |st.script.methods|
      && (forall i :: 0 <= i < |st.script.methods| - 1 ==> r.script.methods[i] == st.script.methods[i])
      && (|st.script.methods| > 0 ==>
            var m := st.script.methods[|st.script.methods| - 1];
            var m' := r.script.methods[|st.script.methods| - 1];
            m'.(variables := m.variables) == m && VarsGrowAny(m.variables, m'.variables, doc.path, line))
  {
    var ms := st.script.methods;
    if st.deep != 0 && |ms| > 0 {
      var last := ms[|ms| - 1];
      var merged := host.pushVariables(last.variables, vs);
      assert Extends(last.variables, vs, merged);
      forall i | |last.variables| <= i < |merged| ensures merged[i].path == doc.path && merged[i].line == line {
        assert merged[i] in vs;
      }
      forall i | 0 <= i < |ms| - 1 ensures Route(host, st, vs).script.methods[i] == ms[i] {
        assert Route(host, st, vs).script.methods[..|ms| - 1] == ms[..|ms| - 1];
      }
    } else {
      var r := JoinVars(st.script.variables, vs);
      forall i | |st.script.variables| <= i < |r| ensures r[i].path == doc.path && r[i].line == line {
        assert r[i] in vs;
      }
    }
  }

  lemma BracesGrows(text: string, line: nat, st: State)
    ensures var r := Braces(text, line, st);
      && r.script.(methods := st.script.methods) == st.script
      && |r.script.methods| == |st.script.methods|
      && (forall i :: 0 <= i < |st.script.methods| - 1 ==> r.script.methods[i] == st.script.methods[i])
      && (|st.script.methods| > 0 ==>
            var m := st.script.methods[|st.script.methods| - 1];
            var m' := r.script.methods[|st.script.methods| - 1];
            m'.(endLine := m.endLine) == m && (m'.endLine == m.endLine || m'.endLine == Some(line)))
  {
    var ms := st.script.methods;
    var r := Braces(text, line, st);
    if |ms| > 0 {
      forall i | 0 <= i < |ms| - 1 ensures r.script.methods[i] == ms[i] {
        assert r.script.methods[..|ms| - 1] == ms[..|ms| - 1];
      }
    }
  }

  /** The variables a line reports all sit on that line. */
  lemma DetectedVarsOnLine(host: Host, doc: Document, line: nat)
    requires line < |doc.lines|
    ensures var vs := AsVars(DetectVariables(host, doc, line));
      forall j :: 0 <= j < |vs| ==> vs[j].line == line && vs[j].path == doc.path
  {
  }

  lemma RestGrows(host: Host, doc: Document, line: nat, st: State)
    requires line < |doc.lines|
    requires WellBehaved(host)
    ensures var r := Rest(host, doc, line, st);
      && r.script.labels == st.script.labels && r.script.hotkeys == st.script.hotkeys
      && r.script.refs == st.script.refs
      && BlocksGrow(st.script.blocks, r.script.blocks, doc.path, line)
      && VarsGrow(st.script.variables, r.script.variables, doc.path, line)
      && |r.script.methods| == |st.script.methods|
      && MethodsGrow(st.script.methods, r.script.methods, doc, line)
  {
    var s := st.script;
    var st1 := st.(script := s.(blocks := s.blocks + BlocksOf(doc, line)));
    var st2 := Braces(doc.lines[line], line, st1);
    var vs := AsVars(DetectVariables(host, doc, line));
    DetectedVarsOnLine(host, doc, line);
    BracesGrows(doc.lines[line], line, st1);
    RouteGrows(host, doc, line, st2, vs);
    BracesThenRoute(host, doc, line, st1, st2, Route(host, st2, vs));
  }

  /** The current method after the brace and variable stages: same declaration, end on this line or unchanged, more variables of this line. */
  lemma BracesThenRoute(host: Host, doc: Document, line: nat, st1: State, st2: State, r: State)
    requires |st2.script.methods| == |st1.script.methods| == |r.script.methods|
    requires forall i :: 0 <= i < |st1.script.methods| - 1 ==> st2.script.methods[i] == st1.script.methods[i]
    requires forall i :: 0 <= i < |st1.script.methods| - 1 ==> r.script.methods[i] == st2.script.methods[i]
    requires |st1.script.methods| > 0 ==>
      var m := st1.script.methods[|st1.script.methods| - 1];
      var m' := st2.script.methods[|st1.script.methods| - 1];
      m'.(endLine := m.endLine) == m && (m'.endLine == m.endLine || m'.endLine == Some(line))
    requires |st1.script.methods| > 0 ==>
      var m := st2.script.methods[|st1.script.methods| - 1];
      var m' := r.script.methods[|st1.script.methods| - 1];
      m'.(variables := m.variables) == m && VarsGrowAny(m.variables, m'.variables, doc.path, line)
    ensures MethodsGrow(st1.script.methods, r.script.methods, doc, line)
  {
    var ms := st1.script.methods;
    if |ms| > 0 {
      var m := ms[|ms| - 1];
      var m3 := r.script.methods[|ms| - 1];
      assert m3.(endLine := m.endLine, variables := m.variables) == m;
      assert MethodGrows(m, m3, doc.path, line);
    }
  }

  lemma AfterMethodGrows(host: Host, doc: Document, line: nat, st: State)
    requires line < |doc.lines|
    requires WellBehaved(host)
    ensures var r := AfterMethod(host, doc, line, st);
      && r.script.refs == st.script.refs
      && LabelsGrow(st.script.labels, r.script.labels, doc.path, line)
      && HotkeysGrow(st.script.hotkeys, r.script.hotkeys, doc.path, line)
      && BlocksGrow(st.script.blocks, r.script.blocks, doc.path, line)
      && VarsGrow(st.script.variables, r.script.variables, doc.path, line)
      && |r.script.methods| == |st.script.methods|
      && MethodsGrow(st.script.methods, r.script.methods, doc, line)
  {
    if GetLabel(host, doc, line).None? && GetHotkey(host, doc, line).None? {
      RestGrows(host, doc, line, st);
    }
  }

  lemma GrowsRefl(s: Script, doc: Document, line: nat)
    ensures Grows(s, s, doc, line)
  {
    assert s.labels[..|s.labels|] == s.labels;
    assert s.hotkeys[..|s.hotkeys|] == s.hotkeys;
    assert s.blocks[..|s.blocks|] == s.blocks;
    assert s.refs[..|s.refs|] == s.refs;
    assert s.variables[..|s.variables|] == s.variables;
    if |s.methods| > 0 {
      var m := s.methods[|s.methods| - 1];
      assert m.variables[..|m.variables|] == m.variables;
    }
  }

  lemma DeclGrows(st: State, m: Method, doc: Document, line: nat)
    requires m.line == line && m.uri == doc.uri && m.endLine.None? && m.variables == []
    ensures Grows(st.script, AddMethod(st, m, doc, line).script, doc, line)
  {
    var s := st.script;
    var r := AddMethod(st, m, doc, line).script;
    GrowsRefl(s, doc, line);
    assert r.refs[..|s.refs|] == s.refs;
    assert r.methods[..|s.methods|] == s.methods;
    assert r.refs[|s.refs|].name == r.methods[|s.methods|].name;
    if |s.methods| > 0 {
      assert r.methods[|s.methods| - 1] == s.methods[|s.methods| - 1];
    }
  }

  lemma NoMatchGrows(host: Host, doc: Document, line: nat, st: State)
    requires line < |doc.lines|
    requires WellBehaved(host)
    ensures Grows(st.script, AfterMethod(host, doc, line, st).script, doc, line)
  {
    AfterMethodGrows(host, doc, line, st);
    var s := st.script;
    assert s.refs[..|s.refs|] == s.refs;
  }

  lemma CallsGrows(host: Host, doc: Document, line: nat, st: State, d: Detection)
    requires line < |doc.lines|
    requires WellBehaved(host)
    requires forall x :: x in AsRefs(d, doc.path) ==> RefOnLine(x, doc, line)
    ensures var refs := host.joinRefs(st.script.refs, AsRefs(d, doc.path));
      Grows(st.script, AfterMethod(host, doc, line, st.(script := st.script.(refs := refs))).script, doc, line)
  {
    var refs := host.joinRefs(st.script.refs, AsRefs(d, doc.path));
    assert Extends(st.script.refs, AsRefs(d, doc.path), refs);
    forall i | |st.script.refs| <= i < |refs| ensures refs[i].path == doc.path && refs[i].line == line {
      assert refs[i] in AsRefs(d, doc.path);
    }
    AfterMethodGrows(host, doc, line, st.(script := st.script.(refs := refs)));
  }

  /** Each line adds to the lists only items found on that line, and changes nothing already found except the current method. */
  lemma StepGrows(host: Host, doc: Document, line: nat, st: State)
    requires line < |doc.lines|
    requires WellBehaved(host)
    requires Step(host, doc, line, st).Success?
    ensures Grows(st.script, Step(host, doc, line, st).value.script, doc, line)
  {
    var text := doc.lines[line];
    if CommentFlag(text, st.blockComment) {
      GrowsRefl(st.script, doc, line);
    } else {
      var st0 := st.(blockComment := false);
      var d := DetectMethod(host, doc, line, text);
      if d.Decl? {
        DeclGrows(st0, d.decl, doc, line);
      } else if d.NoMatch? {
        NoMatchGrows(host, doc, line, st0);
      } else {
        DetectedRefsOnLine(host, doc, line, text);
        CallsGrows(host, doc, line, st0, d);
      }
    }
  }

  // ------------------------------------------------------ keeping the invariant

  lemma MethodsKeep(a: seq<Method>, b: seq<Method>, doc: Document, line: nat)
    requires MethodsWf(a, doc, line) && MethodsGrow(a, b, doc, line)
    ensures MethodsWf(b, doc, line + 1)
  {
    forall i | 0 <= i < |b| ensures MethodWf(b[i], doc, line + 1) {
      if i < |a| - 1 {
        assert b[i] == a[i];
      } else if i == |a| - 1 {
        var m := a[i];
        var m' := b[i];
        assert MethodWf(m, doc, line);
        forall j | 0 <= j < |m'.variables| ensures m'.variables[j].path == doc.path && m'.line < m'.variables[j].line < line + 1 {
          if j < |m.variables| {
            assert m'.variables[j] == m.variables[j];
          }
        }
      }
    }
    forall i, j | 0 <= i < j < |b| ensures b[i].line < b[j].line {
      if j < |a| - 1 {
        assert b[i] == a[i] && b[j] == a[j];
      } else if j == |a| - 1 {
        assert b[i] == a[i];
        assert b[j].line == a[j].line;
      } else {
        assert MethodWf(a[i], doc, line);
        if i < |a| - 1 {
          assert b[i] == a[i];
        } else {
          assert b[i].line == a[i].line;
        }
      }
    }
  }

  lemma LabelsKeep(a: seq<Label>, b: seq<Label>, path: string, line: nat)
    requires LabelsWf(a, path, line) && LabelsGrow(a, b, path, line)
    ensures LabelsWf(b, path, line + 1)
  {
    forall i | 0 <= i < |a| ensures b[i] == a[i] {
      assert b[..|a|][i] == a[i];
    }
  }

  lemma HotkeysKeep(a: seq<Hotkey>, b: seq<Hotkey>, path: string, line: nat)
    requires HotkeysWf(a, path, line) && HotkeysGrow(a, b, path, line)
    ensures HotkeysWf(b, path, line + 1)
  {
    forall i | 0 <= i < |a| ensures b[i] == a[i] {
      assert b[..|a|][i] == a[i];
    }
  }

  lemma BlocksKeep(a: seq<Block>, b: seq<Block>, path: string, line: nat)
    requires BlocksWf(a, path, line) && BlocksGrow(a, b, path, line)
    ensures BlocksWf(b, path, line + 1)
  {
    forall i | 0 <= i < |a| ensures b[i] == a[i] {
      assert b[..|a|][i] == a[i];
    }
  }

  lemma RefsKeep(a: seq<Ref>, b: seq<Ref>, path: string, line: nat)
    requires RefsWf(a, path, line) && RefsGrow(a, b, path, line)
    ensures RefsWf(b, path, line + 1)
  {
    forall i | 0 <= i < |a| ensures b[i] == a[i] {
      assert b[..|a|][i] == a[i];
    }
  }

  lemma VarsKeep(a: seq<Variable>, b: seq<Variable>, path: string, line: nat)
    requires VarsWf(a, path, line) && VarsGrow(a, b, path, line)
    ensures VarsWf(b, path, line + 1)
  {
    forall i | 0 <= i < |a| ensures b[i] == a[i] {
      assert b[..|a|][i] == a[i];
    }
  }

  lemma DeclaredKeep(s: Script, s': Script, doc: Document, line: nat)
    requires DeclaredRefs(s.methods, s.refs) && Grows(s, s', doc, line)
    ensures DeclaredRefs(s'.methods, s'.refs)
  {
    forall i | 0 <= i < |s'.methods|
      ensures exists j :: 0 <= j < |s'.refs| && s'.refs[j].name == s'.methods[i].name && s'.refs[j].line == s'.methods[i].line
    {
      if i < |s.methods| {
        var j :| 0 <= j < |s.refs| && s.refs[j].name == s.methods[i].name && s.refs[j].line == s.methods[i].line;
        assert s'.refs[j] == s.refs[j] by {
          assert s'.refs[..|s.refs|][j] == s.refs[j];
        }
        if i == |s.methods| - 1 {
          assert s'.methods[i].name == s.methods[i].name && s'.methods[i].line == s.methods[i].line;
        } else {
          assert s'.methods[i] == s.methods[i];
        }
      }
    }
  }

  lemma WfKeep(s: Script, s': Script, doc: Document, line: nat)
    requires Wf(s, doc, line) && Grows(s, s', doc, line)
    ensures Wf(s', doc, line + 1)
  {
    LabelsKeep(s.labels, s'.labels, doc.path, line);
    HotkeysKeep(s.hotkeys, s'.hotkeys, doc.path, line);
    BlocksKeep(s.blocks, s'.blocks, doc.path, line);
    RefsKeep(s.refs, s'.refs, doc.path, line);
    VarsKeep(s.variables, s'.variables, doc.path, line);
    MethodsKeep(s.methods, s'.methods, doc, line);
    DeclaredKeep(s, s', doc, line);
  }

  /** One successful step from a state satisfying the invariant keeps it, one line further. */
  lemma StepWf(host: Host, doc: Document, line: nat, st: State)
    requires line < |doc.lines|
    requires WellBehaved(host)
    requires Wf(st.script, doc, line)
    ensures Step(host, doc, line, st).Success? ==> Wf(Step(host, doc, line, st).value.script, doc, line + 1)
  {
    if Step(host, doc, line, st).Success? {
      StepGrows(host, doc, line, st);
      WfKeep(st.script, Step(host, doc, line, st).value.script, doc, line);
    }
  }
}
