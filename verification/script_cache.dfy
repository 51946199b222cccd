/**
 * `Parser.documentCache`: a map from document path to its parse result that
 * remembers the order in which paths were first stored, as a JavaScript
 * `Map` does. Storing under a path already present replaces the script and
 * keeps the path's place.
 */
module ScriptCache {
  import opened Wrappers
  import opened Symbols

  datatype Cache = Cache(order: seq<string>, entries: map<string, Script>)

  /** The paths in `order` are distinct and are exactly the keys of `entries`. */
  ghost predicate Valid(c: Cache) {
    && (forall i, j :: 0 <= i < j < |c.order| ==> c.order[i] != c.order[j])
    && (forall p :: p in c.entries <==> p in c.order)
  }

  const Empty := Cache([], map[])

  /** The script stored under `path`, if any. */
  function Get(c: Cache, path: string): (r: Option<Script>)
    ensures r.Some? <==> path in c.entries
    ensures r.Some? ==> r.value == c.entries[path]
  {
    if path in c.entries then Some(c.entries[path]) else None
  }

  /** Store `s` under `path`. */
  function Put(c: Cache, path: string, s: Script): (r: Cache)
    requires Valid(c)
    ensures Valid(r)
    ensures Get(r, path) == Some(s)
    ensures forall p :: p != path ==> Get(r, p) == Get(c, p)
    ensures |c.order| <= |r.order| && r.order[..|c.order|] == c.order
    ensures path in c.entries ==> r.order == c.order
    ensures path !in c.entries ==> |r.order| == |c.order| + 1
  {
    var order := if path in c.entries then c.order else c.order + [path];
    Cache(order, c.entries[path := s])
  }
}
