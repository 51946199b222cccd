/**
 * The lookups other features run against the cache after documents have been
 * built: find a method, label or hotkey by name, list every method, and list
 * every reference to a name. Names compare without regard to ASCII case.
 *
 * Looking a name up "in this document" reads the document's cache entry
 * directly; a document that was never built makes the source throw, which is
 * modelled as `DocumentNotCached`.
 */
module SymbolIndex {
  import opened Wrappers
  import opened Text
  import opened Symbols
  import opened LineDetectors
  import opened ScriptCache

  datatype LookupError = DocumentNotCached(path: string)

  // ------------------------------------------------------------ generic scans

  /** The index of the first element that passes `p`. */
  function FirstIndex<T>(xs: seq<T>, p: T -> bool): (r: Option<nat>)
    ensures r.Some? ==> r.value < |xs| && p(xs[r.value])
    ensures r.Some? ==> forall j :: 0 <= j < r.value ==> !p(xs[j])
    ensures r.None? <==> forall j :: 0 <= j < |xs| ==> !p(xs[j])
  {
    if |xs| == 0 then None
    else if p(xs[0]) then Some(0)
    else
      match FirstIndex(xs[1..], p)
      case None => None
      case Some(i) => Some(i + 1)
  }

  /** The first element that passes `p`, if any. */
  function First<T>(xs: seq<T>, p: T -> bool): (r: Option<T>)
    ensures r.Some? ==> exists i :: 0 <= i < |xs| && xs[i] == r.value && p(xs[i]) && forall j :: 0 <= j < i ==> !p(xs[j])
    ensures r.None? <==> forall j :: 0 <= j < |xs| ==> !p(xs[j])
  {
    match FirstIndex(xs, p)
    case None => None
    case Some(i) => Some(xs[i])
  }

  /** The elements that pass `p`, in their order, each as often as it occurs in `xs`. */
  function Filter<T(!new)>(xs: seq<T>, p: T -> bool): (r: seq<T>)
    ensures |r| <= |xs|
    ensures forall x :: x in r <==> x in xs && p(x)
  {
    if |xs| == 0 then []
    else (if p(xs[0]) then [xs[0]] else []) + Filter(xs[1..], p)
  }

  /** Each element that passes occurs in the result exactly as often as in `xs`; the others not at all. */
  lemma {:induction false} FilterMultiplicity<T(!new)>(xs: seq<T>, p: T -> bool)
    ensures forall x :: multiset(Filter(xs, p))[x] == if p(x) then multiset(xs)[x] else 0
  {
    if |xs| > 0 {
      FilterMultiplicity(xs[1..], p);
      assert xs == [xs[0]] + xs[1..];
    }
  }

  /** Filtering a concatenation filters each part: the relative order is kept. */
  lemma {:induction false} FilterAppend<T(!new)>(a: seq<T>, b: seq<T>, p: T -> bool)
    ensures Filter(a + b, p) == Filter(a, p) + Filter(b, p)
  {
    if |a| > 0 {
      assert (a + b)[1..] == a[1..] + b;
      FilterAppend(a[1..], b, p);
    } else {
      assert a + b == b;
    }
  }

  /** One list of every script named in `order`, concatenated in that order. */
  function Gather<T(!new)>(c: Cache, order: seq<string>, pick: Script -> seq<T>): (r: seq<T>)
    requires forall i :: 0 <= i < |order| ==> order[i] in c.entries
    ensures forall x :: x in r <==> exists i :: 0 <= i < |order| && x in pick(c.entries[order[i]])
  {
    if |order| == 0 then []
    else
      var r := pick(c.entries[order[0]]) + Gather(c, order[1..], pick);
      assert forall x :: x in r && x !in pick(c.entries[order[0]]) ==>
        exists i :: 1 <= i < |order| && x in pick(c.entries[order[i]]) by {
        forall x | x in r && x !in pick(c.entries[order[0]])
          ensures exists i :: 1 <= i < |order| && x in pick(c.entries[order[i]])
        {
          var i :| 0 <= i < |order[1..]| && x in pick(c.entries[order[1..][i]]);
          assert order[1..][i] == order[i + 1];
        }
      }
      r
  }

  /** `Gather` reads only the entries of the paths it is given. */
  lemma {:induction false} GatherSameEntries<T(!new)>(c: Cache, c': Cache, order: seq<string>, pick: Script -> seq<T>)
    requires forall i :: 0 <= i < |order| ==> order[i] in c.entries && order[i] in c'.entries
    requires forall i :: 0 <= i < |order| ==> c.entries[order[i]] == c'.entries[order[i]]
    ensures Gather(c, order, pick) == Gather(c', order, pick)
  {
    if |order| > 0 {
      GatherSameEntries(c, c', order[1..], pick);
    }
  }

  /** Gathering one more path appends that path's list. */
  lemma {:induction false} GatherSnoc<T(!new)>(c: Cache, order: seq<string>, p: string, pick: Script -> seq<T>)
    requires forall i :: 0 <= i < |order| ==> order[i] in c.entries
    requires p in c.entries
    ensures Gather(c, order + [p], pick) == Gather(c, order, pick) + pick(c.entries[p])
  {
    if |order| == 0 {
      assert order + [p] == [p];
      assert [p][1..] == [];
    } else {
      assert (order + [p])[1..] == order[1..] + [p];
      GatherSnoc(c, order[1..], p, pick);
    }
  }

  /** Every path the cache orders is a key of it. */
  lemma OrderedKeys(c: Cache)
    requires Valid(c)
    ensures forall i :: 0 <= i < |c.order| ==> c.order[i] in c.entries
  {
  }

  // ------------------------------------------------------------ name tests

  function MethodNamed(name: string): Method -> bool {
    (m: Method) => Lower(m.name) == Lower(name)
  }

  function LabelNamed(name: string): Label -> bool {
    (l: Label) => Lower(l.name) == Lower(name)
  }

  /** A hotstring's `:options:` prefix does not take part in the comparison. */
  function HotkeyNamed(name: string): Hotkey -> bool {
    (h: Hotkey) => StripOptions(Lower(h.name)) == Lower(name)
  }

  function RefNamed(name: string): Ref -> bool {
    (x: Ref) => Lower(x.name) == Lower(name)
  }

  // ------------------------------------------------------------ the lookups

  /** `Parser.getAllMethod()`: every cached method, document by document in cache order. */
  function AllMethods(c: Cache): (r: seq<Method>)
    requires Valid(c)
    ensures forall m :: m in r <==> exists p :: p in c.entries && m in c.entries[p].methods
  {
    OrderedKeys(c);
    var r := Gather(c, c.order, (s: Script) => s.methods);
    assert forall m :: m in r <==> exists p :: p in c.entries && m in c.entries[p].methods by {
      forall m ensures m in r <==> exists p :: p in c.entries && m in c.entries[p].methods {
        if m in r {
          var i :| 0 <= i < |c.order| && m in c.entries[c.order[i]].methods;
          assert c.order[i] in c.entries;
        }
        if exists p :: p in c.entries && m in c.entries[p].methods {
          var p :| p in c.entries && m in c.entries[p].methods;
          var i :| 0 <= i < |c.order| && c.order[i] == p;
          assert m in c.entries[c.order[i]].methods;
        }
      }
    }
    r
  }

  /** Every cached label, document by document in cache order. */
  function AllLabels(c: Cache): (r: seq<Label>)
    requires Valid(c)
    ensures forall l :: l in r <==> exists p :: p in c.entries && l in c.entries[p].labels
  {
    OrderedKeys(c);
    var r := Gather(c, c.order, (s: Script) => s.labels);
    assert forall l :: l in r <==> exists p :: p in c.entries && l in c.entries[p].labels by {
      forall l ensures l in r <==> exists p :: p in c.entries && l in c.entries[p].labels {
        if l in r {
          var i :| 0 <= i < |c.order| && l in c.entries[c.order[i]].labels;
          assert c.order[i] in c.entries;
        }
        if exists p :: p in c.entries && l in c.entries[p].labels {
          var p :| p in c.entries && l in c.entries[p].labels;
          var i :| 0 <= i < |c.order| && c.order[i] == p;
          assert l in c.entries[c.order[i]].labels;
        }
      }
    }
    r
  }

  /** Every cached reference, document by document in cache order. */
  function AllRefs(c: Cache): (r: seq<Ref>)
    requires Valid(c)
    ensures forall x :: x in r <==> exists p :: p in c.entries && x in c.entries[p].refs
  {
    OrderedKeys(c);
    var r := Gather(c, c.order, (s: Script) => s.refs);
    assert forall x :: x in r <==> exists p :: p in c.entries && x in c.entries[p].refs by {
      forall x ensures x in r <==> exists p :: p in c.entries && x in c.entries[p].refs {
        if x in r {
          var i :| 0 <= i < |c.order| && x in c.entries[c.order[i]].refs;
          assert c.order[i] in c.entries;
        }
        if exists p :: p in c.entries && x in c.entries[p].refs {
          var p :| p in c.entries && x in c.entries[p].refs;
          var i :| 0 <= i < |c.order| && c.order[i] == p;
          assert x in c.entries[c.order[i]].refs;
        }
      }
    }
    r
  }

  /** Gathering over a cache with one new path appends that path's list. */
  lemma GatherAfterPut<T(!new)>(c: Cache, path: string, s: Script, pick: Script -> seq<T>)
    requires Valid(c)
    requires path !in c.entries
    ensures forall i :: 0 <= i < |c.order| ==> c.order[i] in c.entries
    ensures Put(c, path, s).order == c.order + [path]
    ensures Gather(Put(c, path, s), c.order + [path], pick) == Gather(c, c.order, pick) + pick(s)
  {
    var c' := Put(c, path, s);
    OrderedKeys(c);
    OrderedKeys(c');
    assert c'.order == c.order + [path];
    GatherSnoc(c', c.order, path, pick);
    GatherSameEntries(c, c', c.order, pick);
  }

  /**
   * Storing the script of a document the cache has not seen puts its methods
   * after all the others; the methods already listed keep their order.
   */
  lemma AllMethodsAfterPut(c: Cache, path: string, s: Script)
    requires Valid(c)
    requires path !in c.entries
    ensures AllMethods(Put(c, path, s)) == AllMethods(c) + s.methods
  {
    GatherAfterPut(c, path, s, (x: Script) => x.methods);
  }

  /** The same for references: a new document's references come after all the others. */
  lemma AllRefsAfterPut(c: Cache, path: string, s: Script)
    requires Valid(c)
    requires path !in c.entries
    ensures AllRefs(Put(c, path, s)) == AllRefs(c) + s.refs
  {
    GatherAfterPut(c, path, s, (x: Script) => x.refs);
  }

  /**
   * `Parser.getMethodByName(document, name)`: the first method of this
   * document with the name, else the first one in any cached document.
   */
  function GetMethodByName(c: Cache, doc: Document, name: string): (r: Result<Option<Method>, LookupError>)
    requires Valid(c)
    ensures r.Failure? <==> doc.path !in c.entries
    ensures r.Success? && r.value.Some? ==>
      Lower(r.value.value.name) == Lower(name) && r.value.value in AllMethods(c)
    ensures r.Success? && r.value.None? ==> forall m :: m in AllMethods(c) ==> Lower(m.name) != Lower(name)
    ensures r.Success? && (exists m :: m in c.entries[doc.path].methods && Lower(m.name) == Lower(name)) ==>
      var ms := c.entries[doc.path].methods;
      exists i :: 0 <= i < |ms| && r == Success(Some(ms[i])) && forall j :: 0 <= j < i ==> Lower(ms[j].name) != Lower(name)
    ensures r.Success? && r.value.Some? && (forall m :: m in c.entries[doc.path].methods ==> Lower(m.name) != Lower(name)) ==>
      var all := AllMethods(c);
      exists i :: 0 <= i < |all| && all[i] == r.value.value && forall j :: 0 <= j < i ==> Lower(all[j].name) != Lower(name)
  {
    if doc.path !in c.entries then Failure(DocumentNotCached(doc.path))
    else
      var own := First(c.entries[doc.path].methods, MethodNamed(name));
      if own.Some? then Success(own)
      else Success(First(AllMethods(c), MethodNamed(name)))
  }

  /**
   * `Parser.getLabelByName(document, name)`: the first label of this
   * document with the name, else the first one in any cached document.
   */
  function GetLabelByName(c: Cache, doc: Document, name: string): (r: Result<Option<Label>, LookupError>)
    requires Valid(c)
    ensures r.Failure? <==> doc.path !in c.entries
    ensures r.Success? && r.value.Some? ==>
      Lower(r.value.value.name) == Lower(name) && r.value.value in AllLabels(c)
    ensures r.Success? && r.value.None? ==> forall l :: l in AllLabels(c) ==> Lower(l.name) != Lower(name)
    ensures r.Success? && (exists l :: l in c.entries[doc.path].labels && Lower(l.name) == Lower(name)) ==>
      var ls := c.entries[doc.path].labels;
      exists i :: 0 <= i < |ls| && r == Success(Some(ls[i])) && forall j :: 0 <= j < i ==> Lower(ls[j].name) != Lower(name)
    ensures r.Success? && r.value.Some? && (forall l :: l in c.entries[doc.path].labels ==> Lower(l.name) != Lower(name)) ==>
      var all := AllLabels(c);
      exists i :: 0 <= i < |all| && all[i] == r.value.value && forall j :: 0 <= j < i ==> Lower(all[j].name) != Lower(name)
  {
    if doc.path !in c.entries then Failure(DocumentNotCached(doc.path))
    else
      var own := First(c.entries[doc.path].labels, LabelNamed(name));
      if own.Some? then Success(own)
      else Success(First(AllLabels(c), LabelNamed(name)))
  }

  /**
   * `Parser.getHotkeyByName(document, name)`: the first hotkey of this
   * document whose name, lower-cased and without a leading `:options:`,
   * equals the lower-cased name. Other documents are not searched.
   */
  function GetHotkeyByName(c: Cache, doc: Document, name: string): (r: Result<Option<Hotkey>, LookupError>)
    ensures r.Failure? <==> doc.path !in c.entries
    ensures r.Success? ==>
      var hs := c.entries[doc.path].hotkeys;
      && (r.value.None? <==> forall j :: 0 <= j < |hs| ==> StripOptions(Lower(hs[j].name)) != Lower(name))
      && (r.value.Some? ==>
            exists i :: 0 <= i < |hs| && hs[i] == r.value.value && StripOptions(Lower(hs[i].name)) == Lower(name)
              && forall j :: 0 <= j < i ==> StripOptions(Lower(hs[j].name)) != Lower(name))
  {
    if doc.path !in c.entries then Failure(DocumentNotCached(doc.path))
    else Success(First(c.entries[doc.path].hotkeys, HotkeyNamed(name)))
  }

  /** `Parser.getAllRefByName(name)`: every cached reference with the name, in cache order. */
  function GetAllRefByName(c: Cache, name: string): (r: seq<Ref>)
    requires Valid(c)
    ensures |r| <= |AllRefs(c)|
    ensures forall x :: x in r <==> (exists p :: p in c.entries && x in c.entries[p].refs) && Lower(x.name) == Lower(name)
  {
    Filter(AllRefs(c), RefNamed(name))
  }

  /**
   * Listing the references of a newly stored document: the matches found so
   * far keep their order and multiplicity, and the new document's matches
   * follow in its own order.
   */
  lemma GetAllRefByNameAfterPut(c: Cache, path: string, s: Script, name: string)
    requires Valid(c)
    requires path !in c.entries
    ensures GetAllRefByName(Put(c, path, s), name) == GetAllRefByName(c, name) + Filter(s.refs, RefNamed(name))
  {
    AllRefsAfterPut(c, path, s);
    FilterAppend(AllRefs(c), s.refs, RefNamed(name));
  }

  /**
   * The source's nested loop: for each cached path in order, the matching
   * references of that document. Filtering the flat list gives the same.
   */
  lemma {:induction false} FilterGather(c: Cache, order: seq<string>, name: string)
    requires forall i :: 0 <= i < |order| ==> order[i] in c.entries
    ensures Filter(Gather(c, order, (s: Script) => s.refs), RefNamed(name))
         == Gather(c, order, (s: Script) => Filter(s.refs, RefNamed(name)))
  {
    if |order| > 0 {
      var pick := (s: Script) => s.refs;
      FilterAppend(pick(c.entries[order[0]]), Gather(c, order[1..], pick), RefNamed(name));
      FilterGather(c, order[1..], name);
    }
  }

  /** `getAllRefByName` equals the per-document loop of the source. */
  lemma GetAllRefByNamePerDocument(c: Cache, name: string)
    requires Valid(c)
    ensures forall i :: 0 <= i < |c.order| ==> c.order[i] in c.entries
    ensures GetAllRefByName(c, name) == Gather(c, c.order, (s: Script) => Filter(s.refs, RefNamed(name)))
  {
    OrderedKeys(c);
    FilterGather(c, c.order, name);
  }
}
