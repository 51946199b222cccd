/**
 * `Parser.buildScript`: walk the first lines of a document once, skipping
 * block comments, and sort every line into methods, references, labels,
 * hotkeys, blocks and variables; then store the result in the cache.
 *
 * The walk is a fold of `Step` over the line numbers. The method the source
 * calls `currentMethod` is always the last element of `methods`, so the state
 * does not keep it separately: updates to it rewrite the last method.
 */
module Builder {
  import opened Wrappers
  import opened Text
  import opened Symbols
  import opened LineDetectors
  import opened MethodDetector
  import opened VariableDetector
  import opened ScriptCache

  /** The loop state: the block-comment flag, the brace depth and the lists built so far. */
  datatype State = State(blockComment: bool, deep: int, script: Script)

  const Initial := State(false, 0, EmptyScript)

  /**
   * The only way a scan fails: a line on which the method pattern matches
   * only part of the normalised text while the raw text has no `name(` to
   * delete, so the source's recursion never ends.
   */
  datatype BuildError = UnboundedRecursion(line: nat)

  // ------------------------------------------------------------ block comments

  /** The block-comment flag after reading `text`: a closing marker wins over an opening one. */
  function CommentFlag(text: string, before: bool): (r: bool)
    ensures r <==> !ClosesBlockComment(text) && (OpensBlockComment(text) || before)
  {
    var open := if OpensBlockComment(text) then true else before;
    if ClosesBlockComment(text) then false else open
  }

  // ------------------------------------------------------------ list updates

  /** Replace the last method (the source's `currentMethod`). */
  function UpdateLast(ms: seq<Method>, m: Method): (r: seq<Method>)
    requires |ms| > 0
    ensures |r| == |ms| && r[..|ms| - 1] == ms[..|ms| - 1] && r[|ms| - 1] == m
  {
    ms[..|ms| - 1] + [m]
  }

  /** A declaration: record the method and a reference to it; a `{` on its line opens a level. */
  function AddMethod(st: State, m: Method, doc: Document, line: nat): (r: State)
    ensures r.script.methods == st.script.methods + [m]
    ensures r.script.refs == st.script.refs + [Ref(m.name, doc.path, line, m.character)]
    ensures r.deep == st.deep + (if m.withQuote then 1 else 0)
    ensures r.script.(methods := st.script.methods, refs := st.script.refs) == st.script
    ensures r.blockComment == st.blockComment
  {
    var s := st.script;
    State(st.blockComment, if m.withQuote then st.deep + 1 else st.deep,
          s.(methods := s.methods + [m], refs := s.refs + [Ref(m.name, doc.path, line, m.character)]))
  }

  /**
   * The brace count of a line that reached this point: `{` anywhere opens a
   * level, `}` anywhere closes one and marks the current method as ending here.
   */
  function Braces(text: string, line: nat, st: State): (r: State)
    ensures r.deep == st.deep + (if Contains(text, "{") then 1 else 0) - (if Contains(text, "}") then 1 else 0)
    ensures !Contains(text, "}") ==> r.script == st.script
    ensures |r.script.methods| == |st.script.methods|
    ensures r.script.(methods := st.script.methods) == st.script
    ensures |st.script.methods| > 0 ==> r.script.methods[..|st.script.methods| - 1] == st.script.methods[..|st.script.methods| - 1]
    ensures |st.script.methods| > 0 && Contains(text, "}") ==>
      r.script.methods[|st.script.methods| - 1] == st.script.methods[|st.script.methods| - 1].(endLine := Some(line))
    ensures r.blockComment == st.blockComment
  {
    var deep := if Contains(text, "{") then st.deep + 1 else st.deep;
    if Contains(text, "}") then
      var ms := st.script.methods;
      var ms' := if |ms| > 0 then UpdateLast(ms, ms[|ms| - 1].(endLine := Some(line))) else ms;
      State(st.blockComment, deep - 1, st.script.(methods := ms'))
    else State(st.blockComment, deep, st.script)
  }

  /**
   * Where the variables of a line go: to the document's list at depth 0 or
   * before any method, merged without repeating a name; otherwise to the
   * current method, through the host's merge.
   */
  function Route(host: Host, st: State, vs: seq<Variable>): (r: State)
    ensures r.deep == st.deep && r.blockComment == st.blockComment
    ensures |r.script.methods| == |st.script.methods|
    ensures st.deep == 0 || |st.script.methods| == 0 ==>
      r.script == st.script.(variables := JoinVars(st.script.variables, vs))
    ensures st.deep != 0 && |st.script.methods| > 0 ==>
      var last := st.script.methods[|st.script.methods| - 1];
      && r.script.(methods := st.script.methods) == st.script
      && r.script.methods[..|st.script.methods| - 1] == st.script.methods[..|st.script.methods| - 1]
      && r.script.methods[|st.script.methods| - 1] == last.(variables := host.pushVariables(last.variables, vs))
  {
    var ms := st.script.methods;
    if st.deep == 0 || |ms| == 0 then
      st.(script := st.script.(variables := JoinVars(st.script.variables, vs)))
    else
      var last := ms[|ms| - 1];
      st.(script := st.script.(methods := UpdateLast(ms, last.(variables := host.pushVariables(last.variables, vs)))))
  }

  // ------------------------------------------------------------- one line

  /** The blocks a line adds: its `;;` marker, if any. */
  function BlocksOf(doc: Document, line: nat): (r: seq<Block>)
    requires line < |doc.lines|
    ensures |r| <= 1
    ensures forall b :: b in r ==> b.line == line && b.path == doc.path && |b.name| > 0
  {
    match GetBlock(doc, line)
    case Some(b) => [b]
    case None => []
  }

  /** A line that is neither a label nor a hotkey: block marker, braces, variables. */
  function Rest(host: Host, doc: Document, line: nat, st: State): (r: State)
    requires line < |doc.lines|
    ensures r.blockComment == st.blockComment
    ensures r.deep == st.deep + (if Contains(doc.lines[line], "{") then 1 else 0) - (if Contains(doc.lines[line], "}") then 1 else 0)
    ensures |r.script.methods| == |st.script.methods|
    ensures r.script.refs == st.script.refs && r.script.labels == st.script.labels
    ensures r.script.hotkeys == st.script.hotkeys
    ensures r.script.blocks == st.script.blocks + BlocksOf(doc, line)
  {
    var s := st.script;
    var st1 := st.(script := s.(blocks := s.blocks + BlocksOf(doc, line)));
    var st2 := Braces(doc.lines[line], line, st1);
    Route(host, st2, AsVars(DetectVariables(host, doc, line)))
  }

  /** What happens after the method detector: a label ends the line, then a hotkey, else `Rest`. */
  function AfterMethod(host: Host, doc: Document, line: nat, st: State): (r: State)
    requires line < |doc.lines|
    ensures r.blockComment == st.blockComment
    ensures -1 <= r.deep - st.deep <= 1
    ensures |r.script.methods| == |st.script.methods|
    ensures r.script.refs == st.script.refs
    ensures GetLabel(host, doc, line).Some? ==>
      r == st.(script := st.script.(labels := st.script.labels + [GetLabel(host, doc, line).value]))
    ensures GetLabel(host, doc, line).None? && GetHotkey(host, doc, line).Some? ==>
      r == st.(script := st.script.(hotkeys := st.script.hotkeys + [GetHotkey(host, doc, line).value]))
    ensures GetLabel(host, doc, line).None? && GetHotkey(host, doc, line).None? ==> r == Rest(host, doc, line, st)
  {
    var s := st.script;
    match GetLabel(host, doc, line)
    case Some(l) => st.(script := s.(labels := s.labels + [l]))
    case None =>
      match GetHotkey(host, doc, line)
      case Some(h) => st.(script := s.(hotkeys := s.hotkeys + [h]))
      case None => Rest(host, doc, line, st)
  }

  /** One iteration of the loop over lines. */
  function Step(host: Host, doc: Document, line: nat, st: State): (r: Result<State, BuildError>)
    requires line < |doc.lines|
    ensures r.Success? ==> r.value.blockComment == CommentFlag(doc.lines[line], st.blockComment)
    ensures CommentFlag(doc.lines[line], st.blockComment) ==> r == Success(st.(blockComment := true))
    ensures r.Failure? <==>
      !CommentFlag(doc.lines[line], st.blockComment) && DetectMethod(host, doc, line, doc.lines[line]).Overflow?
    ensures r.Failure? ==> r.error == UnboundedRecursion(line)
    ensures r.Success? ==> -1 <= r.value.deep - st.deep <= 1
    ensures r.Success? && DetectMethod(host, doc, line, doc.lines[line]).Decl? && !CommentFlag(doc.lines[line], st.blockComment) ==>
      r.value.deep == st.deep + (if DetectMethod(host, doc, line, doc.lines[line]).decl.withQuote then 1 else 0)
    ensures (r.Success? && !DetectMethod(host, doc, line, doc.lines[line]).Decl?
             && (GetLabel(host, doc, line).Some? || GetHotkey(host, doc, line).Some?)) ==> r.value.deep == st.deep
    ensures (r.Success? && !DetectMethod(host, doc, line, doc.lines[line]).Decl? && !CommentFlag(doc.lines[line], st.blockComment)
             && GetLabel(host, doc, line).None? && GetHotkey(host, doc, line).None?) ==>
      r.value.deep == st.deep + (if Contains(doc.lines[line], "{") then 1 else 0) - (if Contains(doc.lines[line], "}") then 1 else 0)
    ensures r.Success? ==> |st.script.methods| <= |r.value.script.methods| <= |st.script.methods| + 1
  {
    var text := doc.lines[line];
    if CommentFlag(text, st.blockComment) then Success(st.(blockComment := true))
    else
      var st0 := st.(blockComment := false);
      var d := DetectMethod(host, doc, line, text);
      if d.Overflow? then Failure(UnboundedRecursion(line))
      else if d.Decl? then Success(AddMethod(st0, d.decl, doc, line))
      else if d.NoMatch? then Success(AfterMethod(host, doc, line, st0))
      else
        var refs := host.joinRefs(st0.script.refs, AsRefs(d, doc.path));
        Success(AfterMethod(host, doc, line, st0.(script := st0.script.(refs := refs))))
  }

  /** A declaration line records its method and a reference to it, and changes no other list. */
  lemma StepDeclares(host: Host, doc: Document, line: nat, st: State)
    requires line < |doc.lines|
    requires !CommentFlag(doc.lines[line], st.blockComment)
    requires DetectMethod(host, doc, line, doc.lines[line]).Decl?
    ensures var m := DetectMethod(host, doc, line, doc.lines[line]).decl;
      var r := Step(host, doc, line, st);
      && r.Success?
      && r.value.script.methods == st.script.methods + [m]
      && r.value.script.refs == st.script.refs + [Ref(m.name, doc.path, line, m.character)]
      && r.value.script.(methods := st.script.methods, refs := st.script.refs) == st.script
  {
    var m := DetectMethod(host, doc, line, doc.lines[line]).decl;
    assert Step(host, doc, line, st) == Success(AddMethod(st.(blockComment := false), m, doc, line));
  }

  /**
   * A call line merges the references it yields into the references through
   * the host merge, and then goes on as a line without a method.
   */
  lemma StepCalls(host: Host, doc: Document, line: nat, st: State)
    requires line < |doc.lines|
    requires !CommentFlag(doc.lines[line], st.blockComment)
    requires DetectMethod(host, doc, line, doc.lines[line]).Call? || DetectMethod(host, doc, line, doc.lines[line]).Calls?
    ensures var d := DetectMethod(host, doc, line, doc.lines[line]);
      var merged := host.joinRefs(st.script.refs, AsRefs(d, doc.path));
      && Step(host, doc, line, st).Success?
      && Step(host, doc, line, st).value.script.refs == merged
      && Step(host, doc, line, st) ==
           Success(AfterMethod(host, doc, line, st.(blockComment := false, script := st.script.(refs := merged))))
  {
  }

  /**
   * A line outside a comment block with no declaration, no label and no
   * hotkey adds its block, and its variables go to the document's list when
   * the depth after its braces is 0 or no method was seen yet, and to the
   * current method otherwise.
   */
  lemma StepOrdinary(host: Host, doc: Document, line: nat, st: State)
    requires line < |doc.lines|
    requires !CommentFlag(doc.lines[line], st.blockComment)
    requires !DetectMethod(host, doc, line, doc.lines[line]).Decl?
    requires !DetectMethod(host, doc, line, doc.lines[line]).Overflow?
    requires GetLabel(host, doc, line).None? && GetHotkey(host, doc, line).None?
    ensures Step(host, doc, line, st).Success?
    ensures Step(host, doc, line, st).value.script.blocks == st.script.blocks + BlocksOf(doc, line)
    ensures var vs := AsVars(DetectVariables(host, doc, line));
      var deep := st.deep + (if Contains(doc.lines[line], "{") then 1 else 0) - (if Contains(doc.lines[line], "}") then 1 else 0);
      var s' := Step(host, doc, line, st).value.script;
      && |s'.methods| == |st.script.methods|
      && ((deep == 0 || |st.script.methods| == 0) ==> s'.variables == JoinVars(st.script.variables, vs))
      && (deep != 0 && |st.script.methods| > 0 ==>
            && s'.variables == st.script.variables
            && s'.methods[|st.script.methods| - 1].variables ==
                 host.pushVariables(st.script.methods[|st.script.methods| - 1].variables, vs))
  {
    var base := StepRest(host, doc, line, st);
    RestRoutes(host, doc, line, base);
  }

  /** Such a line is `Rest` run on the state it starts from, with at most the references merged. */
  lemma StepRest(host: Host, doc: Document, line: nat, st: State) returns (base: State)
    requires line < |doc.lines|
    requires !CommentFlag(doc.lines[line], st.blockComment)
    requires !DetectMethod(host, doc, line, doc.lines[line]).Decl?
    requires !DetectMethod(host, doc, line, doc.lines[line]).Overflow?
    requires GetLabel(host, doc, line).None? && GetHotkey(host, doc, line).None?
    ensures base.deep == st.deep && base.script.(refs := st.script.refs) == st.script
    ensures Step(host, doc, line, st) == Success(Rest(host, doc, line, base))
  {
    var d := DetectMethod(host, doc, line, doc.lines[line]);
    var st0 := st.(blockComment := false);
    base := if d.NoMatch? then st0 else st0.(script := st0.script.(refs := host.joinRefs(st0.script.refs, AsRefs(d, doc.path))));
  }

  /** Where `Rest` sends the variables of the line, by the depth after its braces. */
  lemma RestRoutes(host: Host, doc: Document, line: nat, st: State)
    requires line < |doc.lines|
    ensures var vs := AsVars(DetectVariables(host, doc, line));
      var deep := st.deep + (if Contains(doc.lines[line], "{") then 1 else 0) - (if Contains(doc.lines[line], "}") then 1 else 0);
      var s' := Rest(host, doc, line, st).script;
      && ((deep == 0 || |st.script.methods| == 0) ==> s'.variables == JoinVars(st.script.variables, vs))
      && (deep != 0 && |st.script.methods| > 0 ==>
            && s'.variables == st.script.variables
            && s'.methods[|st.script.methods| - 1].variables ==
                 host.pushVariables(st.script.methods[|st.script.methods| - 1].variables, vs))
  {
    var s := st.script;
    var st1 := st.(script := s.(blocks := s.blocks + BlocksOf(doc, line)));
    var st2 := Braces(doc.lines[line], line, st1);
    assert Rest(host, doc, line, st) == Route(host, st2, AsVars(DetectVariables(host, doc, line)));
  }

  /** The state after the first `k` lines, or the first failure. */
  function ScanTo(host: Host, doc: Document, k: nat): (r: Result<State, BuildError>)
    requires k <= |doc.lines|
    ensures r.Failure? ==> r.error.line < k
  {
    if k == 0 then Success(Initial)
    else
      match ScanTo(host, doc, k - 1)
      case Failure(e) => Failure(e)
      case Success(st) => Step(host, doc, k - 1, st)
  }

  // -------------------------------------------------------------- the entry

  /** The options the caller may pass; a missing length falls back to the configured one. */
  datatype BuildOptions = BuildOptions(usingCache: bool, maximumParseLength: Option<int>)

  /** The number of lines to scan: all of them, or at most `max` when `max` is not negative. */
  function LinesToParse(lineCount: nat, max: int): (n: nat)
    ensures n <= lineCount
    ensures 0 <= max ==> n <= max
    ensures n == lineCount || n == max
  {
    if max >= 0 then (if lineCount <= max then lineCount else max) else lineCount
  }

  /** The caller's limit when one is given, else the configured one. */
  function ParseLimit(options: BuildOptions, configured: int): (n: int)
    ensures options.maximumParseLength.Some? ==> n == options.maximumParseLength.value
    ensures options.maximumParseLength.None? ==> n == configured
  {
    match options.maximumParseLength
    case Some(m) => m
    case None => configured
  }

  /**
   * `Parser.buildScript(document, options)`. `configured` stands for the
   * `maximumParseLength` setting. A cached script is returned as it is when
   * the caller asks for it; otherwise the first `LinesToParse` lines are
   * scanned and the new cache holds the script under the document's path.
   * A failure leaves the cache as it was.
   */
  function BuildScript(host: Host, cache: Cache, doc: Document, options: BuildOptions, configured: int)
    : (r: Result<(Script, Cache), BuildError>)
    requires Valid(cache)
    ensures options.usingCache && doc.path in cache.entries ==> r == Success((cache.entries[doc.path], cache))
    ensures r.Success? ==> Valid(r.value.1) && Get(r.value.1, doc.path) == Some(r.value.0)
    ensures r.Success? ==> forall p :: p != doc.path ==> Get(r.value.1, p) == Get(cache, p)
    ensures r.Success? ==> |cache.order| <= |r.value.1.order| && r.value.1.order[..|cache.order|] == cache.order
    ensures r.Failure? ==> r.error.line < LinesToParse(|doc.lines|, ParseLimit(options, configured))
    ensures !(options.usingCache && doc.path in cache.entries) && ParseLimit(options, configured) == 0 ==>
      r.Success? && r.value.0 == EmptyScript
  {
    if options.usingCache && doc.path in cache.entries then Success((cache.entries[doc.path], cache))
    else
      match ScanTo(host, doc, LinesToParse(|doc.lines|, ParseLimit(options, configured)))
      case Failure(e) => Failure(e)
      case Success(st) => Success((st.script, Put(cache, doc.path, st.script)))
  }
}
