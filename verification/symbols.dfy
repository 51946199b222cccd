/**
 * The entities a scan produces and the host collaborators it relies on.
 * Every entity records the document it was found in by the document's path.
 */
module Symbols {
  import opened Wrappers

  /** A text document: its path (the cache key), its URI text and its lines. */
  datatype Document = Document(path: string, uri: string, lines: seq<string>)

  /** A referenced or assigned name. */
  datatype Variable = Variable(name: string, path: string, line: nat, character: int, isGlobal: bool)

  /**
   * A declared function. `withQuote` is true when `{` is on the declaring line,
   * `comment` the remark on the line above, `endLine` the line of the last `}`
   * seen while the method was current, `variables` the names found in its body.
   */
  datatype Method = Method(
    fullName: string,
    name: string,
    uri: string,
    line: nat,
    character: int,
    withQuote: bool,
    comment: Option<string>,
    endLine: Option<nat>,
    variables: seq<Variable>)

  /** A call site. */
  datatype Ref = Ref(name: string, path: string, line: nat, character: int)

  /** A jump label `name:`. */
  datatype Label = Label(name: string, path: string, line: nat, character: int)

  /** A hotkey `keys::` or hotstring `:options:abbrev::`, or a `Hotkey` command. */
  datatype Hotkey = Hotkey(name: string, path: string, line: nat, character: int)

  /** A `;;` region marker. */
  datatype Block = Block(name: string, path: string, line: nat, character: int)

  /** The parse result of one document: six lists in discovery order. */
  datatype Script = Script(
    methods: seq<Method>,
    labels: seq<Label>,
    hotkeys: seq<Hotkey>,
    refs: seq<Ref>,
    variables: seq<Variable>,
    blocks: seq<Block>)

  const EmptyScript := Script([], [], [], [], [], [])

  /**
   * Collaborators whose code is not part of this model: the line normaliser
   * (`CodeUtil.purify`), the reference merge (`CodeUtil.join`) and the
   * method-owned variable merge (`Method.pushVariable`).
   */
  datatype Host = Host(
    purify: string -> string,
    joinRefs: (seq<Ref>, seq<Ref>) -> seq<Ref>,
    pushVariables: (seq<Variable>, seq<Variable>) -> seq<Variable>)

  /** `r` keeps `a` as its prefix and adds only elements of `b`. */
  ghost predicate Extends<T>(a: seq<T>, b: seq<T>, r: seq<T>) {
    |a| <= |r| && r[..|a|] == a && forall i :: |a| <= i < |r| ==> r[i] in b
  }

  /** A merge that appends (some of) the new items and never rewrites old ones. */
  ghost predicate Appending<T(!new)>(merge: (seq<T>, seq<T>) -> seq<T>) {
    forall a, b :: Extends(a, b, merge(a, b))
  }

  /** The behaviour the rest of the program expects from the merges it calls. */
  ghost predicate WellBehaved(host: Host) {
    Appending(host.joinRefs) && Appending(host.pushVariables)
  }
}
