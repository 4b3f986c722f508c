/** The schema cache of `teds_core/cache.py` (`TedsSchemaCache`): per schema
    file, keyed by the hash of its content, the file's path, size and
    modification time and the schema fragments already extracted from it,
    keyed by JSON Pointer.  Hashing, `stat`, clock readings and the cache
    file on disk are inputs and outputs of the operations here. */
module Cache {
  import opened Wrappers
  import opened Text
  import opened Json
  import opened Pointer
  import opened Refs

  /** `CACHE_VERSION`. */
  const CacheVersion: string := "1.0"

  /** A cached fragment and when it was cached. */
  datatype PointerEntry = PointerEntry(schema: Value, cachedAt: string)

  /** One schema file: what it looked like when first cached, and its
      cached pointers. */
  datatype FileEntry = FileEntry(filePath: string, fileSize: int, lastModified: string,
                                 pointers: map<string, PointerEntry>)

  /** The content of the cache file. */
  datatype StoredCache = StoredCache(version: Option<string>, created: Option<string>,
                                     lastUpdated: Option<string>, entries: map<string, FileEntry>)

  /** What `load` finds on disk: no cache file; one that cannot be read or
      is not valid JSON (`OSError`, `JSONDecodeError`); one that is not
      valid UTF-8 (`UnicodeDecodeError`); one that decodes to a JSON value
      other than an object; or its decoded content. */
  datatype CacheFile = Absent | Corrupt | Undecodable | NotAnObject | Stored(data: StoredCache)

  /** A schema file on disk: missing, present but unreadable, or read, with
      the hash of its bytes, its size, its modification time as the cache
      writes it, and its parsed content (`None` when decoding or parsing
      failed). */
  datatype FileState =
    | Missing
    | Unreadable
    | Readable(hash: string, size: int, lastModified: string, document: Option<Value>)

  /** Why `_load_and_cache_schema` failed. */
  datatype LoadCause = Unparsable | PointerNotFound(pointer: string)

  /** `SchemaCacheError`, by the message it carries. */
  datatype CacheError =
    | SchemaFileNotFound(path: string)
    | FileNotFound(path: string)
    | ReadFailed(path: string)
    | LoadFailed(path: string, pointer: string, cause: LoadCause)
    | SaveFailed

  /** What `get_stats` reports (the cache file's own path is left out). */
  datatype Stats = Stats(cacheSizeBytes: int, cachedFiles: nat, cachedPointers: nat,
                         lastUpdated: Option<string>, created: Option<string>)

  // ---------------------------------------------------------------------
  // `_extract_pointer`

  const HashSlash: set<char> := {'#', '/'}

  /** The tokens `_extract_pointer` walks: the pointer loses every leading
      `#` and `/` (not just the `#/` prefix) and the rest is split at `/` and
      unescaped. */
  function PointerParts(jsonPointer: string): (parts: seq<string>)
    ensures LStrip(jsonPointer, HashSlash) == "" <==> parts == []
  {
    var pointer := LStrip(jsonPointer, HashSlash);
    if pointer == "" then [] else UnescapeAll(Split(pointer, '/'))
  }

  /** What `_extract_pointer` returns: the whole document for the root
      pointer, `None` (the "JSON pointer not found" error) when a token is
      missing or a step is not a mapping, and otherwise the target when it
      is a mapping and `{}` when it is not. */
  function Extracted(document: Value, jsonPointer: string): (r: Option<Value>)
    ensures jsonPointer == "#/" || jsonPointer == "#" ==> r == Some(document)
    ensures PointerParts(jsonPointer) == [] ==> r == Some(document)
    ensures PointerParts(jsonPointer) != [] ==>
      (r.None? <==> Walk(document, PointerParts(jsonPointer)).None?)
    ensures PointerParts(jsonPointer) != [] && r.Some? ==> r.value.Map?
    ensures var w := Walk(document, PointerParts(jsonPointer));
      PointerParts(jsonPointer) != [] && w.Some? ==>
        && (w.value.Map? ==> r == Some(w.value))
        && (!w.value.Map? ==> r == Some(Map([])))
  {
    if jsonPointer == "#/" || jsonPointer == "#" then Some(document)
    else if LStrip(jsonPointer, HashSlash) == "" then Some(document)
    else
      match Walk(document, PointerParts(jsonPointer))
      case None => None
      case Some(target) => Some(if target.Map? then target else Map([]))
  }

  /** The explicit `#/` and `#` checks only repeat what the strip already
      does. */
  lemma RootChecksRedundant(document: Value, jsonPointer: string)
    ensures Extracted(document, jsonPointer) ==
      (if PointerParts(jsonPointer) == [] then Some(document)
       else match Walk(document, PointerParts(jsonPointer))
            case None => None
            case Some(target) => Some(if target.Map? then target else Map([])))
  {
    if jsonPointer == "#/" {
      assert LStrip(jsonPointer, HashSlash) == "" by {
        assert jsonPointer[1..][1..] == "";
      }
    }
  }

  /** Every leading `#` and `/` goes, so `##//a` addresses what `#/a` does. */
  lemma LeadingMarksIgnored(document: Value, marks: string, rest: string)
    requires forall i :: 0 <= i < |marks| ==> marks[i] in HashSlash
    ensures PointerParts(marks + rest) == PointerParts(rest)
  {
    LStripPrefix(marks, rest, HashSlash);
  }

  /** For a fragment without `#`, the cache walks the same tokens as
      `resolve_schema_node`; where both find a mapping they agree, and where
      the walk fails the cache reports a missing pointer. */
  lemma ExtractedAgreesWithRefs(document: Value, fragment: string)
    requires '#' !in fragment
    requires SplitJsonPointer(fragment) != []
    ensures PointerParts("#" + fragment) == SplitJsonPointer(fragment)
    ensures Walk(document, SplitJsonPointer(fragment)).None? ==> Extracted(document, "#" + fragment).None?
    ensures Walk(document, SplitJsonPointer(fragment)).Some? && Walk(document, SplitJsonPointer(fragment)).value.Map? ==>
      Extracted(document, "#" + fragment) == Walk(document, SplitJsonPointer(fragment))
  {
    var p := "#" + fragment;
    assert p[1..] == fragment;
    assert LStrip(p, HashSlash) == LStrip(fragment, HashSlash);
    SameStrip(fragment);
    assert LStrip(fragment, Slash) != "";
    assert p == "#/" ==> fragment == "/";
  }

  lemma {:induction false} SameStrip(s: string)
    requires '#' !in s
    ensures LStrip(s, HashSlash) == LStrip(s, Slash)
  {
    if s != [] && s[0] == '/' {
      SameStrip(s[1..]);
    }
  }

  /** The walk cannot index arrays: `#/items/0` on a list is not found. */
  lemma ExtractCannotIndexLists(items: seq<Value>, jsonPointer: string)
    requires PointerParts(jsonPointer) != []
    ensures Extracted(List(items), jsonPointer).None?
  {
  }

  /** `_extract_pointer`. */
  method ExtractPointer(document: Value, jsonPointer: string) returns (r: Option<Value>)
    ensures r == Extracted(document, jsonPointer)
  {
    if jsonPointer == "#/" || jsonPointer == "#" {
      return Some(document);
    }
    var pointer := LStrip(jsonPointer, HashSlash);
    if pointer == "" {
      return Some(document);
    }
    var parts := DecodeTokens(Split(pointer, '/'));
    var target := WalkTokens(document, parts);
    if target.None? {
      return None;
    }
    return Some(if target.value.Map? then target.value else Map([]));
  }

  /** The decoding loop of `_extract_pointer`. */
  method DecodeTokens(pieces: seq<string>) returns (parts: seq<string>)
    ensures parts == UnescapeAll(pieces)
  {
    parts := [];
    var i := 0;
    while i < |pieces|
      invariant 0 <= i <= |pieces|
      invariant parts == UnescapeAll(pieces[..i])
    {
      assert pieces[..i + 1] == pieces[..i] + [pieces[i]];
      UnescapeAllAppend(pieces[..i], pieces[i]);
      parts := parts + [Unescape(pieces[i])];
      i := i + 1;
    }
    assert pieces[..i] == pieces;
  }

  /** The descent loop of `_extract_pointer`. */
  method WalkTokens(document: Value, parts: seq<string>) returns (r: Option<Value>)
    ensures r == Walk(document, parts)
  {
    var current := document;
    var i := 0;
    while i < |parts|
      invariant 0 <= i <= |parts|
      invariant Walk(document, parts) == Walk(current, parts[i..])
    {
      assert parts[i..][1..] == parts[i + 1..];
      if MapHas(current, parts[i]) {
        current := Lookup(current.entries, parts[i]).value;
      } else {
        return None;
      }
      i := i + 1;
    }
    assert parts[i..] == [];
    return Some(current);
  }

  // ---------------------------------------------------------------------
  // `_preemptively_cache_common_pointers`

  const ComponentsSchemas: string := "#/components/schemas"
  const Definitions: string := "#/definitions"

  /** The key a child of a container is cached under: the name as it is,
      without `~0`/`~1` escaping. */
  function ChildKey(container: string, name: string): string {
    container + "/" + name
  }

  lemma ChildKeyInjective(container: string, a: string, b: string)
    requires ChildKey(container, a) == ChildKey(container, b)
    ensures a == b
  {
    var k := ChildKey(container, a);
    assert k[|container| + 1..] == a;
    assert ChildKey(container, b)[|container| + 1..] == b;
  }

  /** The loop over a container's items: every mapping-valued child is
      (re)cached under its key, the others are skipped. */
  function CacheChildren(ptrs: map<string, PointerEntry>, container: string, children: Entries,
                         cachedAt: string): (r: map<string, PointerEntry>)
    ensures forall k :: !StartsWith(k, container + "/") ==> (k in r <==> k in ptrs)
    ensures forall k :: !StartsWith(k, container + "/") && k in ptrs ==> r[k] == ptrs[k]
    decreases |children|
  {
    if children == [] then ptrs
    else
      var p := CacheChildren(ptrs, container, children[..|children| - 1], cachedAt);
      var child := children[|children| - 1];
      if child.1.Map? then
        assert StartsWith(ChildKey(container, child.0), container + "/");
        p[ChildKey(container, child.0) := PointerEntry(child.1, cachedAt)]
      else p
  }

  /** One `try` block: a truthy group is cached as a whole under its
      container key, and, when it is a mapping, child by child.  A truthy
      group that is not a mapping raises inside the block after the
      container has been written; the children are then skipped. */
  function CacheGroup(ptrs: map<string, PointerEntry>, container: string, group: Value,
                      cachedAt: string): map<string, PointerEntry>
  {
    if !Truthy(group) then ptrs
    else
      var withContainer := ptrs[container := PointerEntry(group, cachedAt)];
      if group.Map? then CacheChildren(withContainer, container, group.entries, cachedAt)
      else withContainer
  }

  /** `full_schema.get("components", {}).get("schemas", {})`, or `None` when
      one of the two `get`s raises because its receiver is not a mapping. */
  function ComponentsGroup(full: Value): Option<Value> {
    if !full.Map? then None
    else
      var components := GetOr(full.entries, "components", Map([]));
      if !components.Map? then None else Some(GetOr(components.entries, "schemas", Map([])))
  }

  /** `full_schema.get("definitions", {})`, or `None` when it raises. */
  function DefinitionsGroup(full: Value): Option<Value> {
    if !full.Map? then None else Some(GetOr(full.entries, "definitions", Map([])))
  }

  /** The pointers of a cache entry after pre-indexing `full`: first
      `components/schemas`, then `definitions`. */
  function Preindexed(ptrs: map<string, PointerEntry>, full: Value, cachedAt: string): map<string, PointerEntry> {
    var afterComponents :=
      match ComponentsGroup(full)
      case None => ptrs
      case Some(g) => CacheGroup(ptrs, ComponentsSchemas, g, cachedAt);
    match DefinitionsGroup(full)
    case None => afterComponents
    case Some(g) => CacheGroup(afterComponents, Definitions, g, cachedAt)
  }

  /** A group only touches keys that start with its container. */
  lemma CacheGroupFrame(ptrs: map<string, PointerEntry>, container: string, group: Value, cachedAt: string, k: string)
    requires !StartsWith(k, container)
    ensures k in CacheGroup(ptrs, container, group, cachedAt) <==> k in ptrs
    ensures k in ptrs ==> CacheGroup(ptrs, container, group, cachedAt)[k] == ptrs[k]
  {
    assert k != container;
  }

  /** No key under `#/definitions` starts with `#/components/schemas`, and the
      other way round. */
  lemma ContainersDisjoint(k: string)
    ensures !(StartsWith(k, ComponentsSchemas) && StartsWith(k, Definitions))
  {
    assert StartsWith(k, ComponentsSchemas) ==> k[2] == ComponentsSchemas[2] == 'c';
    assert StartsWith(k, Definitions) ==> k[2] == Definitions[2] == 'd';
  }

  /** Pre-indexing touches nothing outside the two containers. */
  lemma PreindexedFrame(ptrs: map<string, PointerEntry>, full: Value, cachedAt: string, k: string)
    requires !StartsWith(k, ComponentsSchemas) && !StartsWith(k, Definitions)
    ensures k in Preindexed(ptrs, full, cachedAt) <==> k in ptrs
    ensures k in ptrs ==> Preindexed(ptrs, full, cachedAt)[k] == ptrs[k]
  {
    match ComponentsGroup(full) {
      case None =>
      case Some(g) => CacheGroupFrame(ptrs, ComponentsSchemas, g, cachedAt, k);
    }
    var a := match ComponentsGroup(full) case None => ptrs case Some(g) => CacheGroup(ptrs, ComponentsSchemas, g, cachedAt);
    match DefinitionsGroup(full) {
      case None =>
      case Some(g) => CacheGroupFrame(a, Definitions, g, cachedAt, k);
    }
  }

  /** The last child with a given name decides what is cached under its key:
      its value when that is a mapping; otherwise the key keeps what it had. */
  lemma {:induction false} CacheChildrenLast(ptrs: map<string, PointerEntry>, container: string, children: Entries,
                                             cachedAt: string, i: nat)
    requires i < |children|
    requires forall j :: i < j < |children| ==> children[j].0 != children[i].0
    ensures var r := CacheChildren(ptrs, container, children, cachedAt);
      var key := ChildKey(container, children[i].0);
      children[i].1.Map? ==> key in r && r[key] == PointerEntry(children[i].1, cachedAt)
  {
    var key := ChildKey(container, children[i].0);
    var init := children[..|children| - 1];
    var last := children[|children| - 1];
    if i < |children| - 1 {
      CacheChildrenLast(ptrs, container, init, cachedAt, i);
      assert last.0 != children[i].0;
      if last.1.Map? && ChildKey(container, last.0) == key {
        ChildKeyInjective(container, last.0, children[i].0);
      }
    }
  }

  /** A child whose every occurrence is not a mapping leaves its key as it
      was. */
  lemma {:induction false} CacheChildrenSkips(ptrs: map<string, PointerEntry>, container: string, children: Entries,
                                              cachedAt: string, name: string)
    requires forall j :: 0 <= j < |children| && children[j].0 == name ==> !children[j].1.Map?
    ensures var r := CacheChildren(ptrs, container, children, cachedAt);
      var key := ChildKey(container, name);
      (key in r <==> key in ptrs) && (key in ptrs ==> r[key] == ptrs[key])
  {
    if children != [] {
      var init := children[..|children| - 1];
      var last := children[|children| - 1];
      CacheChildrenSkips(ptrs, container, init, cachedAt, name);
      if last.1.Map? && ChildKey(container, last.0) == ChildKey(container, name) {
        ChildKeyInjective(container, last.0, name);
      }
    }
  }

  /** Pre-indexing of `components/schemas`: a non-empty group is cached under
      `#/components/schemas`, each mapping-valued child under
      `#/components/schemas/<name>`, and every other child is skipped. */
  lemma PreindexedComponents(ptrs: map<string, PointerEntry>, full: Value, cachedAt: string, i: nat)
    requires ComponentsGroup(full).Some?
    requires var g := ComponentsGroup(full).value; g.Map? && UniqueKeys(g.entries) && i < |g.entries|
    ensures var g := ComponentsGroup(full).value;
      var r := Preindexed(ptrs, full, cachedAt);
      var key := ChildKey(ComponentsSchemas, g.entries[i].0);
      && ComponentsSchemas in r && r[ComponentsSchemas] == PointerEntry(g, cachedAt)
      && (g.entries[i].1.Map? ==> key in r && r[key] == PointerEntry(g.entries[i].1, cachedAt))
      && (!g.entries[i].1.Map? ==> (key in r <==> key in ptrs) && (key in ptrs ==> r[key] == ptrs[key]))
  {
    var g := ComponentsGroup(full).value;
    var name := g.entries[i].0;
    var key := ChildKey(ComponentsSchemas, name);
    var withContainer := ptrs[ComponentsSchemas := PointerEntry(g, cachedAt)];
    var a := CacheGroup(ptrs, ComponentsSchemas, g, cachedAt);
    assert a == CacheChildren(withContainer, ComponentsSchemas, g.entries, cachedAt);
    assert !StartsWith(ComponentsSchemas, ComponentsSchemas + "/");
    if g.entries[i].1.Map? {
      CacheChildrenLast(withContainer, ComponentsSchemas, g.entries, cachedAt, i);
    } else {
      CacheChildrenSkips(withContainer, ComponentsSchemas, g.entries, cachedAt, name);
      assert key != ComponentsSchemas;
    }
    assert StartsWith(key, ComponentsSchemas);
    ContainersDisjoint(key);
    ContainersDisjoint(ComponentsSchemas);
    match DefinitionsGroup(full) {
      case None =>
      case Some(d) =>
        CacheGroupFrame(a, Definitions, d, cachedAt, key);
        CacheGroupFrame(a, Definitions, d, cachedAt, ComponentsSchemas);
    }
  }

  /** A `components.schemas` that is truthy but not a mapping is cached as a
      container and nothing under it. */
  lemma PreindexedNonMappingComponents(ptrs: map<string, PointerEntry>, full: Value, cachedAt: string, k: string)
    requires ComponentsGroup(full).Some?
    requires var g := ComponentsGroup(full).value; Truthy(g) && !g.Map?
    requires StartsWith(k, ComponentsSchemas) && k != ComponentsSchemas
    ensures var r := Preindexed(ptrs, full, cachedAt);
      (k in r <==> k in ptrs) && (k in ptrs ==> r[k] == ptrs[k])
  {
    var g := ComponentsGroup(full).value;
    var a := CacheGroup(ptrs, ComponentsSchemas, g, cachedAt);
    assert a == ptrs[ComponentsSchemas := PointerEntry(g, cachedAt)];
    ContainersDisjoint(k);
    match DefinitionsGroup(full) {
      case None =>
      case Some(d) => CacheGroupFrame(a, Definitions, d, cachedAt, k);
    }
  }

  /** Pre-indexing of `definitions`: a non-empty group is cached under
      `#/definitions`, each mapping-valued child under
      `#/definitions/<name>`, and every other child is skipped. */
  lemma PreindexedDefinitions(ptrs: map<string, PointerEntry>, full: Value, cachedAt: string, i: nat)
    requires DefinitionsGroup(full).Some?
    requires var g := DefinitionsGroup(full).value; g.Map? && UniqueKeys(g.entries) && i < |g.entries|
    ensures var g := DefinitionsGroup(full).value;
      var r := Preindexed(ptrs, full, cachedAt);
      var key := ChildKey(Definitions, g.entries[i].0);
      && Definitions in r && r[Definitions] == PointerEntry(g, cachedAt)
      && (g.entries[i].1.Map? ==> key in r && r[key] == PointerEntry(g.entries[i].1, cachedAt))
      && (!g.entries[i].1.Map? ==> (key in r <==> key in ptrs) && (key in ptrs ==> r[key] == ptrs[key]))
  {
    var g := DefinitionsGroup(full).value;
    var name := g.entries[i].0;
    var key := ChildKey(Definitions, name);
    var a := match ComponentsGroup(full) case None => ptrs case Some(c) => CacheGroup(ptrs, ComponentsSchemas, c, cachedAt);
    var withContainer := a[Definitions := PointerEntry(g, cachedAt)];
    assert !StartsWith(Definitions, Definitions + "/");
    if g.entries[i].1.Map? {
      CacheChildrenLast(withContainer, Definitions, g.entries, cachedAt, i);
    } else {
      CacheChildrenSkips(withContainer, Definitions, g.entries, cachedAt, name);
      assert key != Definitions;
      assert StartsWith(key, Definitions);
      ContainersDisjoint(key);
      match ComponentsGroup(full) {
        case None =>
        case Some(c) => CacheGroupFrame(ptrs, ComponentsSchemas, c, cachedAt, key);
      }
    }
  }

  /** A `definitions` that is truthy but not a mapping is cached as a
      container and nothing under it. */
  lemma PreindexedNonMappingDefinitions(ptrs: map<string, PointerEntry>, full: Value, cachedAt: string, k: string)
    requires DefinitionsGroup(full).Some?
    requires var g := DefinitionsGroup(full).value; Truthy(g) && !g.Map?
    requires StartsWith(k, Definitions) && k != Definitions
    ensures var r := Preindexed(ptrs, full, cachedAt);
      && Definitions in r && r[Definitions] == PointerEntry(DefinitionsGroup(full).value, cachedAt)
      && (k in r <==> k in ptrs) && (k in ptrs ==> r[k] == ptrs[k])
  {
    var g := DefinitionsGroup(full).value;
    var a := match ComponentsGroup(full) case None => ptrs case Some(c) => CacheGroup(ptrs, ComponentsSchemas, c, cachedAt);
    assert CacheGroup(a, Definitions, g, cachedAt) == a[Definitions := PointerEntry(g, cachedAt)];
    ContainersDisjoint(k);
    match ComponentsGroup(full) {
      case None =>
      case Some(c) => CacheGroupFrame(ptrs, ComponentsSchemas, c, cachedAt, k);
    }
  }

  /** Empty groups cache nothing. */
  lemma PreindexedEmpty(ptrs: map<string, PointerEntry>, full: Value, cachedAt: string)
    requires ComponentsGroup(full).None? || !Truthy(ComponentsGroup(full).value)
    requires DefinitionsGroup(full).None? || !Truthy(DefinitionsGroup(full).value)
    ensures Preindexed(ptrs, full, cachedAt) == ptrs
  {
  }

  /** Only `components/schemas` and `definitions` are indexed: a document
      whose schemas live under `$defs` changes no pointer. */
  lemma DollarDefsNotIndexed(ptrs: map<string, PointerEntry>, defs: Value, cachedAt: string)
    ensures Preindexed(ptrs, Map([("$defs", defs)]), cachedAt) == ptrs
  {
    var e: Entries := [("$defs", defs)];
    assert !HasKey(e, "components") by { assert e[0].0 != "components" by { assert e[0].0[0] == '$'; } }
    assert !HasKey(e, "definitions") by { assert e[0].0 != "definitions" by { assert e[0].0[0] == '$'; } }
  }

  lemma {:induction false} UnescapeAllConcat(a: seq<string>, b: seq<string>)
    ensures UnescapeAll(a + b) == UnescapeAll(a) + UnescapeAll(b)
  {
    if a == [] {
      assert a + b == b;
    } else {
      assert (a + b)[1..] == a[1..] + b;
      UnescapeAllConcat(a[1..], b);
    }
  }

  /** A string with a separator in it splits into at least two pieces. */
  lemma SplitWithSep(s: string, sep: char)
    requires sep in s
    ensures |Split(s, sep)| >= 2
  {
  }

  lemma StripStopsAt(s: string, i: nat)
    requires i < |s| && s[i] !in HashSlash
    ensures LStrip(s, HashSlash) != ""
  {
  }

  /** A pre-indexed child's pointer is read as the container's tokens
      followed by the split name. */
  lemma ChildKeyParts(container: string, name: string)
    requires LStrip(container, HashSlash) != ""
    ensures PointerParts(ChildKey(container, name))
         == PointerParts(container) + UnescapeAll(Split(name, '/'))
  {
    var c := LStrip(container, HashSlash);
    LStripAppend(container, "/" + name, HashSlash);
    assert ChildKey(container, name) == container + ("/" + name);
    assert c + ("/" + name) == c + ['/'] + name;
    SplitAppend(c, name, '/');
    UnescapeAllConcat(Split(c, '/'), Split(name, '/'));
  }

  /** Pre-indexed keys are not escaped: for a child whose name contains `/`,
      the key it is cached under, read as a pointer, does not name that
      child (it has more tokens than the container plus one), so asking for
      the pointer that does name it misses the pre-indexed entry. */
  lemma PreIndexedKeyQuirk(name: string)
    requires '/' in name
    ensures PointerParts(ChildKey(ComponentsSchemas, name)) != PointerParts(ComponentsSchemas) + [name]
  {
    StripStopsAt(ComponentsSchemas, 2);
    ChildKeyParts(ComponentsSchemas, name);
    SplitWithSep(name, '/');
  }

  /** `_preemptively_cache_common_pointers`, on the pointers of one cache
      entry. */
  method PreemptivelyCacheCommonPointers(ptrs: map<string, PointerEntry>, full: Value, cachedAt: string)
    returns (out: map<string, PointerEntry>)
    ensures out == Preindexed(ptrs, full, cachedAt)
  {
    out := ptrs;
    var components := ComponentsGroup(full);
    if components.Some? {
      out := CacheCommonGroup(out, ComponentsSchemas, components.value, cachedAt);
    }
    var definitions := DefinitionsGroup(full);
    if definitions.Some? {
      out := CacheCommonGroup(out, Definitions, definitions.value, cachedAt);
    }
  }

  /** The body of one of the two `try` blocks. */
  method CacheCommonGroup(ptrs: map<string, PointerEntry>, container: string, group: Value, cachedAt: string)
    returns (out: map<string, PointerEntry>)
    ensures out == CacheGroup(ptrs, container, group, cachedAt)
  {
    out := ptrs;
    if !Truthy(group) {
      return;
    }
    out := out[container := PointerEntry(group, cachedAt)];
    if !group.Map? {
      return;
    }
    ghost var start := out;
    var i := 0;
    while i < |group.entries|
      invariant 0 <= i <= |group.entries|
      invariant out == CacheChildren(start, container, group.entries[..i], cachedAt)
    {
      var child := group.entries[i];
      assert group.entries[..i + 1][..i] == group.entries[..i];
      if child.1.Map? {
        out := out[ChildKey(container, child.0) := PointerEntry(child.1, cachedAt)];
      }
      i := i + 1;
    }
    assert group.entries[..i] == group.entries;
  }

  // ---------------------------------------------------------------------
  // `_extract_dependencies`

  /** The `$ref` of a mapping itself, when it is a string starting `#/`. */
  function OwnRef(entries: Entries): (r: seq<string>)
    ensures |r| <= 1
  {
    match Lookup(entries, "$ref")
    case Some(Str(ref)) => if StartsWith(ref, "#/") then [ref] else []
    case _ => []
  }

  /** The local `$ref`s found by `collect_refs`, in the order it appends
      them: a mapping's own reference before those inside its values, then
      the values and list items in order. */
  function Dependencies(v: Value): (deps: seq<string>)
    ensures forall d :: d in deps ==> StartsWith(d, "#/")
    decreases v, 1, 0
  {
    match v
    case Map(entries) => OwnRef(entries) + EntryDependencies(v, 0)
    case List(items) => ItemDependencies(v, 0)
    case _ => []
  }

  /** The references inside the values of a mapping from position `i` on. */
  function EntryDependencies(v: Value, i: nat): (deps: seq<string>)
    requires v.Map?
    ensures forall d :: d in deps ==> StartsWith(d, "#/")
    decreases v, 0, |v.entries| - i
  {
    if i >= |v.entries| then []
    else
      assert v.entries[i] in v.entries;
      Dependencies(v.entries[i].1) + EntryDependencies(v, i + 1)
  }

  /** The references inside the items of a list from position `i` on. */
  function ItemDependencies(v: Value, i: nat): (deps: seq<string>)
    requires v.List?
    ensures forall d :: d in deps ==> StartsWith(d, "#/")
    decreases v, 0, |v.items| - i
  {
    if i >= |v.items| then []
    else
      assert v.items[i] in v.items;
      Dependencies(v.items[i]) + ItemDependencies(v, i + 1)
  }

  /** A mapping's own local reference is found. */
  lemma OwnRefCollected(entries: Entries, ref: string)
    requires Lookup(entries, "$ref") == Some(Str(ref)) && StartsWith(ref, "#/")
    ensures ref in Dependencies(Map(entries))
  {
    assert Dependencies(Map(entries))[0] == ref;
  }

  /** Everything found inside a value of a mapping is found for the mapping. */
  lemma {:induction false} EntryDependenciesInclude(v: Value, i: nat, j: nat, d: string)
    requires v.Map? && i <= j < |v.entries|
    requires d in Dependencies(v.entries[j].1)
    ensures d in EntryDependencies(v, i)
    decreases j - i
  {
    if i < j {
      EntryDependenciesInclude(v, i + 1, j, d);
    }
  }

  /** Everything found inside an item of a list is found for the list. */
  lemma {:induction false} ItemDependenciesInclude(v: Value, i: nat, j: nat, d: string)
    requires v.List? && i <= j < |v.items|
    requires d in Dependencies(v.items[j])
    ensures d in ItemDependencies(v, i)
    decreases j - i
  {
    if i < j {
      ItemDependenciesInclude(v, i + 1, j, d);
    }
  }

  /** The search reaches into every value and item: a reference found in a
      child is found in its parent. */
  lemma ChildDependenciesIncluded(v: Value, j: nat, d: string)
    requires v.Map? ==> j < |v.entries| && d in Dependencies(v.entries[j].1)
    requires v.List? ==> j < |v.items| && d in Dependencies(v.items[j])
    requires v.Map? || v.List?
    ensures d in Dependencies(v)
  {
    if v.Map? {
      EntryDependenciesInclude(v, 0, j, d);
    } else {
      ItemDependenciesInclude(v, 0, j, d);
    }
  }

  /** One value of a mapping searched after the ones before it. */
  lemma EntryStep(v: Value, i: nat, before: seq<string>)
    requires v.Map? && i < |v.entries|
    ensures before + Dependencies(v.entries[i].1) + EntryDependencies(v, i + 1)
         == before + EntryDependencies(v, i)
  {
  }

  /** One item of a list searched after the ones before it. */
  lemma ItemStep(v: Value, i: nat, before: seq<string>)
    requires v.List? && i < |v.items|
    ensures before + Dependencies(v.items[i]) + ItemDependencies(v, i + 1)
         == before + ItemDependencies(v, i)
  {
  }

  /** `_extract_dependencies`: `collect_refs` appending to the list it is
      given. */
  method ExtractDependencies(schema: Value) returns (deps: seq<string>)
    ensures deps == Dependencies(schema)
  {
    deps := CollectRefs(schema, []);
  }

  /** `collect_refs`. */
  method CollectRefs(obj: Value, acc: seq<string>) returns (out: seq<string>)
    ensures out == acc + Dependencies(obj)
    decreases obj, 1, 0
  {
    out := acc;
    if obj.Map? {
      var ref := Lookup(obj.entries, "$ref");
      if ref.Some? && ref.value.Str? && StartsWith(ref.value.s, "#/") {
        out := out + [ref.value.s];
      }
      assert out == acc + OwnRef(obj.entries);
      var i := 0;
      while i < |obj.entries|
        invariant 0 <= i <= |obj.entries|
        invariant out + EntryDependencies(obj, i) == acc + Dependencies(obj)
      {
        assert obj.entries[i] in obj.entries;
        EntryStep(obj, i, out);
        out := CollectRefs(obj.entries[i].1, out);
        i := i + 1;
      }
    } else if obj.List? {
      var i := 0;
      while i < |obj.items|
        invariant 0 <= i <= |obj.items|
        invariant out + ItemDependencies(obj, i) == acc + Dependencies(obj)
      {
        assert obj.items[i] in obj.items;
        ItemStep(obj, i, out);
        out := CollectRefs(obj.items[i], out);
        i := i + 1;
      }
    }
  }

  // ---------------------------------------------------------------------
  // Cache entries: validity and `_load_and_cache_schema`

  /** `_is_cache_valid`: the hash has an entry, the entry was made for the
      same path, size and modification time, and the pointer is cached. */
  predicate ValidIn(entries: map<string, FileEntry>, hash: string, path: string, size: int,
                    lastModified: string, pointer: string)
  {
    && hash in entries
    && entries[hash].filePath == path
    && entries[hash].fileSize == size
    && entries[hash].lastModified == lastModified
    && pointer in entries[hash].pointers
  }

  /** The entry for `hash` is created, with no pointers, only when there is
      none yet; an existing entry keeps its metadata. */
  function WithEntry(entries: map<string, FileEntry>, hash: string, path: string, size: int,
                     lastModified: string): map<string, FileEntry>
  {
    if hash in entries then entries else entries[hash := FileEntry(path, size, lastModified, map[])]
  }

  /** Pre-indexing into the entry, then the requested pointer, unless it is
      already cached. */
  function StoreFragment(entries: map<string, FileEntry>, hash: string, full: Value, pointer: string,
                         fragment: Value, cachedAt: string): map<string, FileEntry>
    requires hash in entries
  {
    var e := entries[hash];
    var ptrs := Preindexed(e.pointers, full, cachedAt);
    entries[hash := e.(pointers := if pointer in ptrs then ptrs else ptrs[pointer := PointerEntry(fragment, cachedAt)])]
  }

  /** The result of `_load_and_cache_schema` and the state it leaves. */
  datatype LoadOutcome = LoadOutcome(result: Result<Value, CacheError>, entries: map<string, FileEntry>, dirty: bool)

  /** `_load_and_cache_schema` on a file whose content parsed to `document`
      (`None` when reading or parsing raised): the entry is created before
      the pointer is extracted, so a missing pointer leaves the new, empty
      entry behind; `dirty` is set only on success. */
  function LoadSchema(entries: map<string, FileEntry>, dirty: bool, path: string, hash: string, size: int,
                      lastModified: string, document: Option<Value>, pointer: string, cachedAt: string): (o: LoadOutcome)
    ensures document.None? ==> o == LoadOutcome(Failure(LoadFailed(path, pointer, Unparsable)), entries, dirty)
    ensures document.Some? ==>
      (o.result.Success? <==> Extracted(Or(document.value, Map([])), pointer).Some?)
    ensures o.result.Success? ==> o.result.value == Extracted(Or(document.value, Map([])), pointer).value
    ensures document.Some? && o.result.Failure? ==> o.result == Failure(LoadFailed(path, pointer, PointerNotFound(pointer)))
    ensures o.result.Success? ==> o.dirty
    ensures o.result.Failure? ==> o.dirty == dirty
    ensures forall h :: h != hash ==> (h in o.entries <==> h in entries)
    ensures forall h :: h != hash && h in entries ==> o.entries[h] == entries[h]
    ensures document.Some? ==> hash in o.entries
    ensures hash in entries ==>
      && hash in o.entries
      && o.entries[hash].filePath == entries[hash].filePath
      && o.entries[hash].fileSize == entries[hash].fileSize
      && o.entries[hash].lastModified == entries[hash].lastModified
    ensures o.result.Success? ==> pointer in o.entries[hash].pointers
  {
    match document
    case None => LoadOutcome(Failure(LoadFailed(path, pointer, Unparsable)), entries, dirty)
    case Some(loaded) =>
      var full := Or(loaded, Map([]));
      var base := WithEntry(entries, hash, path, size, lastModified);
      match Extracted(full, pointer)
      case None => LoadOutcome(Failure(LoadFailed(path, pointer, PointerNotFound(pointer))), base, dirty)
      case Some(fragment) => LoadOutcome(Success(fragment), StoreFragment(base, hash, full, pointer, fragment, cachedAt), true)
  }

  /** After a successful load the same request is a hit, unless the hash
      already had an entry made for another path, size or modification
      time: that entry's metadata is never refreshed, so such a file misses
      every time until the cache is cleared or the file invalidated. */
  lemma LoadThenValid(entries: map<string, FileEntry>, dirty: bool, path: string, hash: string, size: int,
                      lastModified: string, document: Option<Value>, pointer: string, cachedAt: string)
    requires LoadSchema(entries, dirty, path, hash, size, lastModified, document, pointer, cachedAt).result.Success?
    ensures ValidIn(LoadSchema(entries, dirty, path, hash, size, lastModified, document, pointer, cachedAt).entries,
                    hash, path, size, lastModified, pointer)
        <==> (hash !in entries ||
              (entries[hash].filePath == path && entries[hash].fileSize == size &&
               entries[hash].lastModified == lastModified))
  {
    var o := LoadSchema(entries, dirty, path, hash, size, lastModified, document, pointer, cachedAt);
    if hash !in entries {
      var base := WithEntry(entries, hash, path, size, lastModified);
      assert base[hash] == FileEntry(path, size, lastModified, map[]);
    }
  }

  /** A pointer that is already cached, and is not one of those pre-indexing
      rewrites, keeps its cached fragment. */
  lemma LoadKeepsCachedPointer(entries: map<string, FileEntry>, dirty: bool, path: string, hash: string, size: int,
                               lastModified: string, document: Option<Value>, pointer: string, cachedAt: string,
                               other: string)
    requires hash in entries && other in entries[hash].pointers
    requires !StartsWith(other, ComponentsSchemas) && !StartsWith(other, Definitions)
    ensures var o := LoadSchema(entries, dirty, path, hash, size, lastModified, document, pointer, cachedAt);
      other in o.entries[hash].pointers && o.entries[hash].pointers[other] == entries[hash].pointers[other]
  {
    var o := LoadSchema(entries, dirty, path, hash, size, lastModified, document, pointer, cachedAt);
    if document.Some? {
      var full := Or(document.value, Map([]));
      if Extracted(full, pointer).Some? {
        PreindexedFrame(entries[hash].pointers, full, cachedAt, other);
      }
    }
  }

  /** Pre-indexing removes no pointer: every pointer cached before a load
      is still cached after it. */
  lemma {:induction false} CacheChildrenGrows(ptrs: map<string, PointerEntry>, container: string, children: Entries,
                                              cachedAt: string)
    ensures ptrs.Keys <= CacheChildren(ptrs, container, children, cachedAt).Keys
    decreases |children|
  {
    if children != [] {
      CacheChildrenGrows(ptrs, container, children[..|children| - 1], cachedAt);
    }
  }

  lemma PreindexedGrows(ptrs: map<string, PointerEntry>, full: Value, cachedAt: string)
    ensures ptrs.Keys <= Preindexed(ptrs, full, cachedAt).Keys
  {
    var a := match ComponentsGroup(full) case None => ptrs case Some(g) => CacheGroup(ptrs, ComponentsSchemas, g, cachedAt);
    match ComponentsGroup(full) {
      case None =>
      case Some(g) =>
        if Truthy(g) && g.Map? {
          CacheChildrenGrows(ptrs[ComponentsSchemas := PointerEntry(g, cachedAt)], ComponentsSchemas, g.entries, cachedAt);
        }
    }
    match DefinitionsGroup(full) {
      case None =>
      case Some(g) =>
        if Truthy(g) && g.Map? {
          CacheChildrenGrows(a[Definitions := PointerEntry(g, cachedAt)], Definitions, g.entries, cachedAt);
        }
    }
  }

  /** A load never forgets a pointer of any entry. */
  lemma LoadKeepsPointers(entries: map<string, FileEntry>, dirty: bool, path: string, hash: string, size: int,
                          lastModified: string, document: Option<Value>, pointer: string, cachedAt: string)
    requires hash in entries
    ensures var o := LoadSchema(entries, dirty, path, hash, size, lastModified, document, pointer, cachedAt);
      entries[hash].pointers.Keys <= o.entries[hash].pointers.Keys
  {
    if document.Some? {
      var full := Or(document.value, Map([]));
      if Extracted(full, pointer).Some? {
        PreindexedGrows(entries[hash].pointers, full, cachedAt);
      }
    }
  }

  /** `#/a/b` names the tokens `a` and `b` when neither needs decoding. */
  lemma TwoPartPointer(a: string, b: string)
    requires a != [] && a[0] !in HashSlash
    requires '/' !in a && '/' !in b && '~' !in a && '~' !in b
    ensures PointerParts("#/" + a + "/" + b) == [a, b]
  {
    var rest := a + ['/'] + b;
    assert "#/" + a + "/" + b == "#/" + rest;
    LStripPrefix("#/", rest, HashSlash);
    StripStopsAt(rest, 0);
    assert LStrip("#/" + rest, HashSlash) == rest;
    TwoTokens(a, b);
  }

  lemma TwoTokens(a: string, b: string)
    requires '/' !in a && '/' !in b && '~' !in a && '~' !in b
    ensures UnescapeAll(Split(a + ['/'] + b, '/')) == [a, b]
  {
    SplitAppend(a, b, '/');
    SplitNoSep(a, '/');
    SplitNoSep(b, '/');
    UnescapePlain(a);
    UnescapePlain(b);
    assert Split(a + ['/'] + b, '/') == [a, b];
    assert UnescapeAll([a, b]) == [Unescape(a)] + UnescapeAll([b]);
    assert UnescapeAll([b]) == [Unescape(b)] + UnescapeAll([]);
  }

  lemma ComponentsSchemasParts(a: string, b: string)
    requires a == "components" && b == "schemas"
    ensures PointerParts(ComponentsSchemas) == [a, b]
  {
    assert ComponentsSchemas == "#/" + a + "/" + b;
    TwoPartPointer(a, b);
  }

  /** Requesting `#/components/schemas` itself when it holds a non-empty
      non-mapping (a list, a string, a number): the miss returns `{}`,
      because `_extract_pointer` turns non-mappings into `{}`, but the
      pre-indexing has already cached the raw value under that pointer and
      the requested fragment is not written over it, so every later hit
      returns the raw value instead. */
  lemma ContainerMissDiffersFromHit(entries: map<string, FileEntry>, dirty: bool, path: string, hash: string,
                                    size: int, lastModified: string, full: Value, cachedAt: string, g: Value)
    requires ComponentsGroup(full) == Some(g) && Truthy(g) && !g.Map?
    ensures var o := LoadSchema(entries, dirty, path, hash, size, lastModified, Some(full), ComponentsSchemas, cachedAt);
      && o.result == Success(Map([]))
      && ValidIn(o.entries, hash, o.entries[hash].filePath, o.entries[hash].fileSize,
                 o.entries[hash].lastModified, ComponentsSchemas)
      && o.entries[hash].pointers[ComponentsSchemas].schema == g
  {
    var comps, schemas := "components", "schemas";
    ComponentsSchemasParts(comps, schemas);
    assert full.entries != [];
    assert Or(full, Map([])) == full;
    var components := GetOr(full.entries, comps, Map([]));
    assert HasKey(full.entries, comps);
    assert HasKey(components.entries, schemas);
    assert Walk(full, [comps, schemas]) == Some(g) by {
      assert Walk(components, [schemas]) == Walk(g, []);
    }
    var base := WithEntry(entries, hash, path, size, lastModified);
    var withContainer := base[hash].pointers[ComponentsSchemas := PointerEntry(g, cachedAt)];
    assert CacheGroup(base[hash].pointers, ComponentsSchemas, g, cachedAt) == withContainer;
    ContainersDisjoint(ComponentsSchemas);
    match DefinitionsGroup(full) {
      case None =>
      case Some(d) => CacheGroupFrame(withContainer, Definitions, d, cachedAt, ComponentsSchemas);
    }
  }

  /** The sum, over the entries, of their numbers of cached pointers. */
  ghost function TotalPointers(m: map<string, FileEntry>): nat
    decreases |m|
  {
    if m == map[] then 0
    else
      var k :| k in m;
      MapRemoveSize(m, k);
      |m[k].pointers| + TotalPointers(m - {k})
  }

  lemma MapRemoveSize(m: map<string, FileEntry>, k: string)
    requires k in m
    ensures |m - {k}| == |m| - 1
  {
    assert (m - {k}).Keys == m.Keys - {k};
    assert |m.Keys - {k}| == |m.Keys| - 1;
  }

  /** The sum can be taken from any entry first. */
  lemma {:induction false} TotalPointersRemove(m: map<string, FileEntry>, k: string)
    requires k in m
    ensures TotalPointers(m) == |m[k].pointers| + TotalPointers(m - {k})
    decreases |m|
  {
    var j :| j in m && TotalPointers(m) == |m[j].pointers| + TotalPointers(m - {j});
    if j != k {
      MapRemoveSize(m, j);
      MapRemoveSize(m, k);
      TotalPointersRemove(m - {j}, k);
      TotalPointersRemove(m - {k}, j);
      assert (m - {j}) - {k} == (m - {k}) - {j};
    }
  }

  // ---------------------------------------------------------------------
  // `TedsSchemaCache`

  /** The cache held in memory: the fields of `cache_data` and the `dirty`
      flag. */
  class SchemaCache {
    var version: Option<string>
    var created: Option<string>
    var lastUpdated: Option<string>
    var entries: map<string, FileEntry>
    var dirty: bool

    /** `__init__`: `cache_data` is `{}` and the cache is clean. */
    constructor ()
      ensures version == None && created == None && lastUpdated == None
      ensures entries == map[] && !dirty
    {
      version := None;
      created := None;
      lastUpdated := None;
      entries := map[];
      dirty := false;
    }

    /** What `save` writes. */
    function Snapshot(): StoredCache
      reads this
    {
      StoredCache(version, created, lastUpdated, entries)
    }

    /** `_init_empty_cache`. */
    method InitEmptyCache(now: string)
      modifies this
      ensures Snapshot() == StoredCache(Some(CacheVersion), Some(now), Some(now), map[])
      ensures dirty == old(dirty)
    {
      version := Some(CacheVersion);
      created := Some(now);
      lastUpdated := Some(now);
      entries := map[];
    }

    /** `load`: a readable cache file of the current version is taken as it
        is and leaves `dirty` alone; a missing, unreadable or non-JSON file, or one of
        another version, gives an empty cache that is dirty.  A file that is
        not valid UTF-8 makes the read raise, and a file holding a JSON value
        other than an object makes the version lookup raise; `load` catches
        neither, so `ok` is false. */
    method Load(file: CacheFile, now: string) returns (ok: bool)
      modifies this
      ensures ok <==> !(file.Undecodable? || file.NotAnObject?)
      ensures file.Stored? && file.data.version == Some(CacheVersion) ==>
        Snapshot() == file.data && dirty == old(dirty)
      ensures ok && !(file.Stored? && file.data.version == Some(CacheVersion)) ==>
        Snapshot() == StoredCache(Some(CacheVersion), Some(now), Some(now), map[]) && dirty
    {
      ok := true;
      match file {
        case Stored(data) =>
          version, created, lastUpdated, entries := data.version, data.created, data.lastUpdated, data.entries;
          if data.version != Some(CacheVersion) {
            InitEmptyCache(now);
            dirty := true;
          }
        case Undecodable =>
          ok := false;
        case NotAnObject =>
          ok := false;
        case _ =>
          InitEmptyCache(now);
          dirty := true;
      }
    }

    /** `save`: nothing unless dirty; otherwise `last_updated` is set (even if
        the write then fails) and the cache is written; only a successful
        write makes the cache clean.  The result is what was written. */
    method Save(now: string, writeOk: bool) returns (r: Result<Option<StoredCache>, CacheError>)
      modifies this
      ensures !old(dirty) ==> r == Success(None) && unchanged(this)
      ensures old(dirty) ==> Snapshot() == old(Snapshot()).(lastUpdated := Some(now))
      ensures old(dirty) && writeOk ==> r == Success(Some(Snapshot())) && !dirty
      ensures old(dirty) && !writeOk ==> r == Failure(SaveFailed) && dirty
    {
      if !dirty {
        return Success(None);
      }
      lastUpdated := Some(now);
      if !writeOk {
        return Failure(SaveFailed);
      }
      dirty := false;
      return Success(Some(Snapshot()));
    }

    /** `clear`. */
    method Clear(now: string)
      modifies this
      ensures Snapshot() == StoredCache(Some(CacheVersion), Some(now), Some(now), map[])
      ensures dirty
    {
      InitEmptyCache(now);
      dirty := true;
    }

    /** `invalidate_file`: the file is hashed first, which fails for a missing
        or unreadable file; then that hash's entry, and only it, goes, and the
        cache becomes dirty only if there was one. */
    method InvalidateFile(absPath: string, file: FileState) returns (r: Result<(), CacheError>)
      modifies this
      ensures file.Missing? ==> r == Failure(FileNotFound(absPath)) && unchanged(this)
      ensures file.Unreadable? ==> r == Failure(ReadFailed(absPath)) && unchanged(this)
      ensures file.Readable? ==> r == Success(())
      ensures file.Readable? ==> entries == old(entries) - {file.hash}
      ensures file.Readable? ==> dirty == (old(dirty) || file.hash in old(entries))
      ensures version == old(version) && created == old(created) && lastUpdated == old(lastUpdated)
    {
      match file {
        case Missing => return Failure(FileNotFound(absPath));
        case Unreadable => return Failure(ReadFailed(absPath));
        case Readable(hash, _, _, _) =>
          if hash in entries {
            entries := entries - {hash};
            dirty := true;
          }
          return Success(());
      }
    }

    /** `_is_cache_valid`. */
    predicate IsCacheValid(hash: string, path: string, size: int, lastModified: string, pointer: string)
      reads this
    {
      ValidIn(entries, hash, path, size, lastModified, pointer)
    }

    /** `get_stats`: the number of cached files and the total number of
        cached pointers; the size of the cache file (0 when there is none) is
        given. */
    method GetStats(cacheFileSize: Option<int>) returns (s: Stats)
      ensures s.cachedFiles == |entries|
      ensures s.cachedPointers == TotalPointers(entries)
      ensures s.cacheSizeBytes == (if cacheFileSize.Some? then cacheFileSize.value else 0)
      ensures s.lastUpdated == lastUpdated && s.created == created
    {
      var remaining := entries;
      var total: nat := 0;
      while remaining != map[]
        invariant total + TotalPointers(remaining) == TotalPointers(entries)
        decreases |remaining|
      {
        var k :| k in remaining;
        TotalPointersRemove(remaining, k);
        MapRemoveSize(remaining, k);
        total := total + |remaining[k].pointers|;
        remaining := remaining - {k};
      }
      var size := if cacheFileSize.Some? then cacheFileSize.value else 0;
      s := Stats(size, |entries|, total, lastUpdated, created);
    }

    /** `_load_and_cache_schema`; `cachedAt` is the current time. */
    method LoadAndCacheSchema(path: string, hash: string, size: int, lastModified: string,
                              document: Option<Value>, pointer: string, cachedAt: string)
      returns (r: Result<Value, CacheError>)
      modifies this
      ensures var o := LoadSchema(old(entries), old(dirty), path, hash, size, lastModified, document, pointer, cachedAt);
        r == o.result && entries == o.entries && dirty == o.dirty
      ensures version == old(version) && created == old(created) && lastUpdated == old(lastUpdated)
    {
      if document.None? {
        return Failure(LoadFailed(path, pointer, Unparsable));
      }
      var full := Or(document.value, Map([]));
      if hash !in entries {
        entries := entries[hash := FileEntry(path, size, lastModified, map[])];
      }
      var fragment := ExtractPointer(full, pointer);
      if fragment.None? {
        return Failure(LoadFailed(path, pointer, PointerNotFound(pointer)));
      }
      var entry := entries[hash];
      var ptrs := PreemptivelyCacheCommonPointers(entry.pointers, full, cachedAt);
      if pointer !in ptrs {
        ptrs := ptrs[pointer := PointerEntry(fragment.value, cachedAt)];
      }
      entries := entries[hash := entry.(pointers := ptrs)];
      dirty := true;
      return Success(fragment.value);
    }

    /** `get_schema` for the resolved path `absPath`; `now` is the current
        time.  A hit returns the cached fragment and changes nothing. */
    method GetSchema(absPath: string, pointer: string, file: FileState, now: string)
      returns (r: Result<Value, CacheError>)
      modifies this
      ensures file.Missing? ==> r == Failure(SchemaFileNotFound(absPath)) && unchanged(this)
      ensures file.Unreadable? ==> r == Failure(ReadFailed(absPath)) && unchanged(this)
      ensures file.Readable? && old(IsCacheValid(file.hash, absPath, file.size, file.lastModified, pointer)) ==>
        r == Success(old(entries)[file.hash].pointers[pointer].schema) && unchanged(this)
      ensures file.Readable? && !old(IsCacheValid(file.hash, absPath, file.size, file.lastModified, pointer)) ==>
        var o := LoadSchema(old(entries), old(dirty), absPath, file.hash, file.size, file.lastModified,
                            file.document, pointer, now);
        r == o.result && entries == o.entries && dirty == o.dirty &&
        version == old(version) && created == old(created) && lastUpdated == old(lastUpdated)
    {
      match file {
        case Missing => return Failure(SchemaFileNotFound(absPath));
        case Unreadable => return Failure(ReadFailed(absPath));
        case Readable(hash, size, lastModified, document) =>
          if IsCacheValid(hash, absPath, size, lastModified, pointer) {
            return Success(entries[hash].pointers[pointer].schema);
          }
          r := LoadAndCacheSchema(absPath, hash, size, lastModified, document, pointer, now);
      }
    }
  }
}
