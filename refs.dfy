/** Pointer and path helpers of `teds_core/refs.py`: splitting a fragment into
    JSON Pointer tokens, jq-style example keys, joining fragments, walking a
    schema document, collecting a node's `examples`, and the network policy. */
module Refs {
  import opened Wrappers
  import opened Text
  import opened Json
  import opened Pointer

  const Slash: set<char> := {'/'}

  /** The file part of `ref.partition("#")`. */
  function FilePart(ref: string): (f: string)
    ensures '#' !in f
    ensures '#' !in ref ==> f == ref
    ensures '#' in ref ==> |f| < |ref| && ref[|f|] == '#' && ref[..|f|] == f
  {
    if ref == [] then []
    else if ref[0] == '#' then []
    else [ref[0]] + FilePart(ref[1..])
  }

  /** The fragment of `ref.partition("#")`: what follows the first `#`, or
      `""` when there is none. */
  function Fragment(ref: string): (frag: string)
    ensures '#' !in ref ==> frag == ""
    ensures '#' in ref ==> ref == FilePart(ref) + "#" + frag
  {
    if ref == [] then []
    else if ref[0] == '#' then ref[1..]
    else
      var rest := Fragment(ref[1..]);
      assert '#' in ref ==> '#' in ref[1..];
      rest
  }

  /** `split_json_pointer`: leading slashes go, an empty remainder is the
      root (no tokens), otherwise every `/`-separated token is unescaped. */
  function SplitJsonPointer(fragment: string): (segs: seq<string>)
    ensures LStrip(fragment, Slash) == "" <==> segs == []
  {
    var frag := LStrip(fragment, Slash);
    if frag == "" then [] else UnescapeAll(Split(frag, '/'))
  }

  function UnescapeAll(tokens: seq<string>): (keys: seq<string>)
    ensures |keys| == |tokens|
  {
    if tokens == [] then [] else [Unescape(tokens[0])] + UnescapeAll(tokens[1..])
  }

  lemma {:induction false} UnescapeAllAppend(tokens: seq<string>, t: string)
    ensures UnescapeAll(tokens + [t]) == UnescapeAll(tokens) + [Unescape(t)]
  {
    if tokens != [] {
      assert (tokens + [t])[1..] == tokens[1..] + [t];
      UnescapeAllAppend(tokens[1..], t);
    }
  }

  /** The root fragments. */
  lemma SplitJsonPointerRoot()
    ensures SplitJsonPointer("") == []
    ensures SplitJsonPointer("/") == []
  {
  }

  function EscapeAll(keys: seq<string>): (tokens: seq<string>)
    ensures |tokens| == |keys|
    ensures forall p :: p in tokens ==> '/' !in p
  {
    if keys == [] then [] else [Escape(keys[0])] + EscapeAll(keys[1..])
  }

  lemma {:induction false} UnescapeAllEscapeAll(keys: seq<string>)
    ensures UnescapeAll(EscapeAll(keys)) == keys
  {
    if keys != [] {
      UnescapeEscape(keys[0]);
      UnescapeAllEscapeAll(keys[1..]);
      assert EscapeAll(keys)[1..] == EscapeAll(keys[1..]);
    }
  }

  /** Writing keys as a pointer (`/` followed by the escaped tokens) and
      splitting it again gives the keys back, provided the first key is not
      empty: an empty first token would be eaten by the leading-slash strip. */
  lemma SplitJsonPointerRoundTrip(keys: seq<string>)
    requires |keys| >= 1 && keys[0] != ""
    ensures SplitJsonPointer("/" + Join(EscapeAll(keys), "/")) == keys
  {
    var tokens := EscapeAll(keys);
    var j := Join(tokens, "/");
    assert tokens[0] == Escape(keys[0]);
    assert Escape(keys[0])[0] != '/';
    JoinHead(tokens, "/");
    assert j[0] == tokens[0][0];
    assert ("/" + j)[1..] == j;
    assert LStrip("/" + j, Slash) == j;
    SplitJoin(tokens, '/');
    UnescapeAllEscapeAll(keys);
  }

  /** The pointer `/a/b`.  (The pointer is a parameter so that the
      verifier does not evaluate the recursive definitions on a literal.) */
  lemma SplitJsonPointerPlainExample(p: string)
    requires p == "/a/b"
    ensures SplitJsonPointer(p) == ["a", "b"]
  {
    var keys := ["a", "b"];
    assert EscapeAll(keys) == keys by {
      assert Escape("a") == "a";
      assert Escape("b") == "b";
      assert EscapeAll(keys[1..]) == ["b"];
    }
    assert p == "/" + Join(keys, "/");
    SplitJsonPointerRoundTrip(keys);
  }

  /** A pointer using both escapes. */
  lemma SplitJsonPointerEscapedExample(p: string)
    requires p == "/a~1b/~0c"
    ensures SplitJsonPointer(p) == ["a/b", "~c"]
  {
    var keys := ["a/b", "~c"];
    assert EscapeAll(keys) == ["a~1b", "~0c"] by {
      assert Escape("a/b") == "a~1b";
      assert Escape("~c") == "~0c";
      assert EscapeAll(keys[1..]) == ["~0c"];
    }
    assert p == "/" + Join(["a~1b", "~0c"], "/");
    SplitJsonPointerRoundTrip(keys);
  }

  predicate IsLetterOrUnderscore(c: char) {
    ('A' <= c <= 'Z') || ('a' <= c <= 'z') || c == '_'
  }

  predicate IsWordChar(c: char) {
    IsLetterOrUnderscore(c) || ('0' <= c <= '9')
  }

  /** `[A-Za-z_][A-Za-z0-9_]*` over the whole string. */
  predicate IsIdentifier(s: string) {
    |s| >= 1 && IsLetterOrUnderscore(s[0]) && forall i :: 1 <= i < |s| ==> IsWordChar(s[i])
  }

  /** `re.match(r"^[A-Za-z_][A-Za-z0-9_]*$", s)`: Python's `$` also matches
      just before a final newline, so an identifier followed by one `\n`
      matches too. */
  predicate MatchesIdentifierPattern(s: string) {
    IsIdentifier(s) || (|s| >= 2 && s[|s| - 1] == '\n' && IsIdentifier(s[..|s| - 1]))
  }

  /** `jq_segment`: `.seg` for an identifier, `.["seg"]` otherwise. */
  function JqSegment(seg: string): (r: string)
    ensures MatchesIdentifierPattern(seg) <==> r == "." + seg
    ensures !MatchesIdentifierPattern(seg) <==> r == ".[\"" + seg + "\"]"
  {
    if MatchesIdentifierPattern(seg) then "." + seg else ".[\"" + seg + "\"]"
  }

  /** The second character of a jq step tells the two forms apart. */
  lemma JqSegmentShape(seg: string)
    ensures |JqSegment(seg)| >= 2
    ensures MatchesIdentifierPattern(seg) <==> JqSegment(seg)[1] != '['
  {
    if MatchesIdentifierPattern(seg) {
      assert JqSegment(seg)[1] == seg[0];
      if !IsIdentifier(seg) {
        assert seg[..|seg| - 1][0] == seg[0];
      }
    }
  }

  /** Different segments give different jq steps, so a jq path names its
      pointer unambiguously. */
  lemma JqSegmentInjective(a: string, b: string)
    requires JqSegment(a) == JqSegment(b)
    ensures a == b
  {
    var r := JqSegment(a);
    JqSegmentShape(a);
    JqSegmentShape(b);
    if MatchesIdentifierPattern(a) && MatchesIdentifierPattern(b) {
      assert a == r[1..] == b;
    } else if !MatchesIdentifierPattern(a) && !MatchesIdentifierPattern(b) {
      var q := "\"";
      assert r == ".[" + q + a + q + "]" == ".[" + q + b + q + "]";
      assert |a| == |b|;
      assert r[3..3 + |a|] == a;
      assert r[3..3 + |b|] == b;
    }
  }

  /** The two checks the tool's tests make. */
  lemma JqSegmentExamples()
    ensures JqSegment("ok") == ".ok"
    ensures JqSegment("not-ok") == ".[\"not-ok\"]"
  {
    assert !IsWordChar('-');
    assert !IsIdentifier("not-ok") by { assert "not-ok"[3] == '-'; }
    assert !IsIdentifier("not-o") by { assert "not-o"[3] == '-'; }
  }

  /** `"".join(jq_segment(s) for s in segs)`. */
  function JqPath(segs: seq<string>): (r: string)
    ensures segs == [] <==> r == ""
  {
    if segs == [] then "" else JqSegment(segs[0]) + JqPath(segs[1..])
  }

  /** `jq_examples_prefix`: the jq path of the fragment's tokens, `""` for the
      root. */
  function JqExamplesPrefix(fragment: string): (r: string)
    ensures r == "" <==> SplitJsonPointer(fragment) == []
  {
    JqPath(SplitJsonPointer(fragment))
  }

  lemma {:induction false} EscapePlain(key: string)
    requires '~' !in key && '/' !in key
    ensures Escape(key) == key
  {
    if key != [] {
      EscapePlain(key[1..]);
      assert [key[0]] + key[1..] == key;
    }
  }

  predicate AllIdentifiers(keys: seq<string>) {
    forall i :: 0 <= i < |keys| ==> IsIdentifier(keys[i])
  }

  lemma {:induction false} JqPathIdentifiers(keys: seq<string>)
    requires |keys| >= 1 && AllIdentifiers(keys)
    ensures JqPath(keys) == "." + Join(keys, ".")
  {
    assert JqSegment(keys[0]) == "." + keys[0];
    assert JqPath(keys) == JqSegment(keys[0]) + JqPath(keys[1..]);
    if |keys| > 1 {
      assert AllIdentifiers(keys[1..]) by {
        forall i | 0 <= i < |keys[1..]| ensures IsIdentifier(keys[1..][i]) {
          assert keys[1..][i] == keys[i + 1];
        }
      }
      JqPathIdentifiers(keys[1..]);
      assert Join(keys, ".") == keys[0] + "." + Join(keys[1..], ".");
    } else {
      assert keys[1..] == [];
    }
  }

  lemma {:induction false} EscapeAllPlain(keys: seq<string>)
    requires AllIdentifiers(keys)
    ensures EscapeAll(keys) == keys
  {
    if keys != [] {
      assert IsIdentifier(keys[0]);
      assert '~' !in keys[0] && '/' !in keys[0] by {
        forall i | 0 <= i < |keys[0]| ensures keys[0][i] != '~' && keys[0][i] != '/' {
          if i > 0 { assert IsWordChar(keys[0][i]); }
        }
      }
      EscapePlain(keys[0]);
      assert AllIdentifiers(keys[1..]) by {
        forall i | 0 <= i < |keys[1..]| ensures IsIdentifier(keys[1..][i]) {
          assert keys[1..][i] == keys[i + 1];
        }
      }
      EscapeAllPlain(keys[1..]);
      assert keys == [keys[0]] + keys[1..];
    }
  }

  /** For a pointer made of identifiers only, the jq prefix is the dotted
      path (`/components/schemas/A` gives `.components.schemas.A`). */
  lemma JqExamplesPrefixIdentifiers(keys: seq<string>)
    requires |keys| >= 1 && AllIdentifiers(keys)
    ensures JqExamplesPrefix("/" + Join(keys, "/")) == "." + Join(keys, ".")
  {
    EscapeAllPlain(keys);
    assert IsIdentifier(keys[0]);
    SplitJsonPointerRoundTrip(keys);
    JqPathIdentifiers(keys);
  }

  /** `join_fragment`: the parent without surrounding slashes, then `/` and
      the child; just the child under the root. */
  function JoinFragment(parentFragment: string, child: string): (r: string)
    ensures Strip(parentFragment, Slash) == "" ==> r == child
    ensures Strip(parentFragment, Slash) != "" ==> r == Strip(parentFragment, Slash) + "/" + child
  {
    var p := Strip(parentFragment, Slash);
    if p == "" then child else p + "/" + child
  }

  /** Joining adds exactly one token: the child, decoded.  The child is not
      escaped first, so a child with `/` in it would add more than one, and
      a parent with trailing slashes loses its trailing empty tokens. */
  lemma JoinFragmentSplit(parentFragment: string, child: string)
    requires '/' !in child
    requires parentFragment == "" || parentFragment[|parentFragment| - 1] != '/'
    requires child != "" || LStrip(parentFragment, Slash) != ""
    ensures SplitJsonPointer(JoinFragment(parentFragment, child))
         == SplitJsonPointer(parentFragment) + [Unescape(child)]
  {
    if LStrip(parentFragment, Slash) == "" {
      JoinUnderRoot(parentFragment, child);
    } else {
      JoinUnderParent(parentFragment, child);
    }
  }

  lemma JoinUnderRoot(parentFragment: string, child: string)
    requires '/' !in child && child != ""
    requires LStrip(parentFragment, Slash) == ""
    ensures SplitJsonPointer(JoinFragment(parentFragment, child)) == [Unescape(child)]
  {
    assert Strip(parentFragment, Slash) == "";
    assert JoinFragment(parentFragment, child) == child;
    assert LStrip(child, Slash) == child;
    SplitNoSep(child, '/');
  }

  lemma JoinUnderParent(parentFragment: string, child: string)
    requires '/' !in child
    requires parentFragment == "" || parentFragment[|parentFragment| - 1] != '/'
    requires LStrip(parentFragment, Slash) != ""
    ensures SplitJsonPointer(JoinFragment(parentFragment, child))
         == SplitJsonPointer(parentFragment) + [Unescape(child)]
  {
    var l := LStrip(parentFragment, Slash);
    StripNoTrailing(parentFragment);
    SplitUnderParent(l, child);
    UnescapeAllAppend(Split(l, '/'), child);
  }

  lemma StripNoTrailing(s: string)
    requires s == "" || s[|s| - 1] != '/'
    ensures Strip(s, Slash) == LStrip(s, Slash)
  {
    var l := LStrip(s, Slash);
    if l != "" {
      LStripKeepsLast(s, Slash);
    }
    RStripNothing(l, Slash);
  }

  lemma SplitUnderParent(l: string, child: string)
    requires l != "" && l[0] != '/'
    requires '/' !in child
    ensures SplitJsonPointer(l + "/" + child) == UnescapeAll(Split(l, '/') + [child])
  {
    var r := l + ['/'] + child;
    assert r[0] == l[0];
    LStripNoLead(r, Slash);
    SplitThenLast(l, child, '/');
  }

  /** The walk `resolve_schema_node` makes: each token must be a key of the
      mapping reached so far; lists and scalars stop it. */
  function Walk(node: Value, segs: seq<string>): (r: Option<Value>)
    ensures segs != [] && !node.Map? ==> r == None
  {
    if segs == [] then Some(node)
    else if MapHas(node, segs[0]) then Walk(Lookup(node.entries, segs[0]).value, segs[1..])
    else None
  }

  /** The walk cannot step into an array: a token after a list finds
      nothing, even `0`. */
  lemma WalkStopsAtList(items: seq<Value>, segs: seq<string>)
    requires segs != []
    ensures Walk(List(items), segs) == None
  {
  }

  /** The walk along a path is the walk along its first part continued along
      the rest. */
  lemma {:induction false} WalkAppend(node: Value, a: seq<string>, b: seq<string>)
    ensures Walk(node, a + b) == if Walk(node, a).Some? then Walk(Walk(node, a).value, b) else None
  {
    if a == [] {
      assert a + b == b;
    } else {
      assert (a + b)[0] == a[0] && (a + b)[1..] == a[1..] + b;
      if MapHas(node, a[0]) {
        WalkAppend(Lookup(node.entries, a[0]).value, a[1..], b);
      }
    }
  }

  /** Python's `None` is the loader's `null`: the caller cannot tell a
      missing node from a `null` one. */
  function NoneAsNull(r: Option<Value>): Value {
    match r
    case Some(v) => v
    case None => Null
  }

  /** `resolve_schema_node` on a schema file whose loaded content is
      `loaded`: the node the fragment addresses (`null` when the walk
      fails) and the fragment without its leading slashes. */
  method ResolveSchemaNode(loaded: Value, ref: string) returns (node: Value, fragment: string)
    ensures node == NoneAsNull(Walk(Or(loaded, Map([])), SplitJsonPointer(Fragment(ref))))
    ensures fragment == LStrip(Fragment(ref), Slash)
  {
    var frag := Fragment(ref);
    var doc := Or(loaded, Map([]));
    node := doc;
    fragment := LStrip(frag, Slash);
    var segs := SplitJsonPointer(frag);
    var i := 0;
    while i < |segs|
      invariant 0 <= i <= |segs|
      invariant Walk(doc, segs) == Walk(node, segs[i..])
    {
      var k := segs[i];
      assert segs[i..][1..] == segs[i + 1..];
      if MapHas(node, k) {
        node := Lookup(node.entries, k).value;
      } else {
        node := Null;
        return;
      }
      i := i + 1;
    }
  }

  /** The key under which example number `i` of a node with jq prefix
      `prefix` is reported. */
  function ExampleKey(prefix: string, i: nat): string {
    (if prefix != "" then prefix + ".examples" else ".examples") + "[" + NatToString(i) + "]"
  }

  /** Two examples of one node never share a key. */
  lemma ExampleKeysDistinct(prefix: string, i: nat, j: nat)
    requires i != j
    ensures ExampleKey(prefix, i) != ExampleKey(prefix, j)
  {
    var base := if prefix != "" then prefix + ".examples" else ".examples";
    var a, b := ExampleKey(prefix, i), ExampleKey(prefix, j);
    if a == b {
      assert |NatToString(i)| == |NatToString(j)|;
      assert a[|base| + 1..|a| - 1] == NatToString(i);
      assert b[|base| + 1..|b| - 1] == NatToString(j);
      NatToStringInjective(i, j);
    }
  }

  /** The node `resolve_schema_node` returns for a schema file whose loaded
      content is `loaded`. */
  function NodeAt(loaded: Value, ref: string): Value {
    NoneAsNull(Walk(Or(loaded, Map([])), SplitJsonPointer(Fragment(ref))))
  }

  /** The `examples` list of a node, if the node is a mapping that has one. */
  function ExampleList(node: Value): (r: Option<seq<Value>>)
    ensures r.Some? <==> node.Map? && GetOr(node.entries, "examples", Null).List?
  {
    if node.Map? && GetOr(node.entries, "examples", Null).List?
    then Some(GetOr(node.entries, "examples", Null).items)
    else None
  }

  /** The examples of a node, each under its own key: every example of the
      list in order. */
  function KeyedExamples(items: seq<Value>, prefix: string): (r: seq<(string, Value)>)
    ensures |r| == |items|
    ensures forall i :: 0 <= i < |r| ==> r[i].1 == items[i] && r[i].0 == ExampleKey(prefix, i)
  {
    seq(|items|, i requires 0 <= i < |items| => (ExampleKey(prefix, i), items[i]))
  }

  /** No two examples of a node share a key. */
  lemma KeyedExamplesDistinct(items: seq<Value>, prefix: string)
    ensures var r := KeyedExamples(items, prefix);
      forall i, j :: 0 <= i < j < |r| ==> r[i].0 != r[j].0
  {
    var r := KeyedExamples(items, prefix);
    forall i, j | 0 <= i < j < |r| ensures r[i].0 != r[j].0 {
      ExampleKeysDistinct(prefix, i, j);
    }
  }

  /** What `collect_examples` returns. */
  function Examples(loaded: Value, ref: string): seq<(string, Value)> {
    match ExampleList(NodeAt(loaded, ref))
    case None => []
    case Some(items) => KeyedExamples(items, JqExamplesPrefix(LStrip(Fragment(ref), Slash)))
  }

  /** `collect_examples` finds nothing unless the resolved node is a mapping
      whose `examples` is a list; then it returns every example in order,
      example `i` under `<prefix>.examples[i]`, and no key twice. */
  lemma ExamplesSpec(loaded: Value, ref: string)
    ensures var node, r := NodeAt(loaded, ref), Examples(loaded, ref);
      && (!(node.Map? && GetOr(node.entries, "examples", Null).List?) ==> r == [])
      && (node.Map? && GetOr(node.entries, "examples", Null).List? ==>
            var items := GetOr(node.entries, "examples", Null).items;
            && |r| == |items|
            && forall i :: 0 <= i < |r| ==>
                 r[i] == (ExampleKey(JqExamplesPrefix(LStrip(Fragment(ref), Slash)), i), items[i]))
      && forall i, j :: 0 <= i < j < |r| ==> r[i].0 != r[j].0
  {
    var node := NodeAt(loaded, ref);
    if node.Map? && GetOr(node.entries, "examples", Null).List? {
      KeyedExamplesDistinct(GetOr(node.entries, "examples", Null).items, JqExamplesPrefix(LStrip(Fragment(ref), Slash)));
    }
  }

  /** The loop of `collect_examples`: `base` is `<prefix>.examples`, or
      `.examples` for the root, and example `i` goes under `base[i]`. */
  method KeyExamples(items: seq<Value>, prefix: string) returns (out: seq<(string, Value)>)
    ensures out == KeyedExamples(items, prefix)
  {
    ghost var expected := KeyedExamples(items, prefix);
    var base := if prefix != "" then prefix + ".examples" else ".examples";
    out := [];
    var i := 0;
    while i < |items|
      invariant 0 <= i <= |items|
      invariant out == expected[..i]
    {
      var key := base + "[" + NatToString(i) + "]";
      assert key == ExampleKey(prefix, i);
      assert expected[..i + 1] == expected[..i] + [(key, items[i])];
      out := out + [(key, items[i])];
      i := i + 1;
    }
    assert expected[..i] == expected;
  }

  /** `collect_examples`: nothing unless the node is a mapping whose
      `examples` is a list; then one `(key, example)` pair per example, in
      order. */
  method CollectExamples(loaded: Value, ref: string) returns (out: seq<(string, Value)>)
    ensures out == Examples(loaded, ref)
  {
    var node, fragment := ResolveSchemaNode(loaded, ref);
    assert node == NodeAt(loaded, ref);
    if !node.Map? {
      return [];
    }
    var ex := GetOr(node.entries, "examples", Null);
    if !ex.List? {
      return [];
    }
    assert ExampleList(node) == Some(ex.items);
    out := KeyExamples(ex.items, JqExamplesPrefix(fragment));
  }

  const DefaultTimeout: real := 5.0
  const DefaultMaxBytes: int := 5 * 1024 * 1024

  /** The module-level network settings of `refs.py`: fetching is refused
      until allowed; the timeout (seconds) and the size limit (bytes) start
      from the environment overrides, if those parse, or the defaults. */
  class NetworkPolicy {
    var allowNetwork: bool
    var timeout: real
    var maxBytes: int

    /** `envTimeout`/`envMaxBytes` are `TEDS_NETWORK_TIMEOUT` and
        `TEDS_NETWORK_MAX_BYTES` after conversion; `None` when unset or not
        a number. */
    constructor (envTimeout: Option<real>, envMaxBytes: Option<int>)
      ensures !allowNetwork
      ensures timeout == (if envTimeout.Some? then envTimeout.value else DefaultTimeout)
      ensures maxBytes == (if envMaxBytes.Some? then envMaxBytes.value else DefaultMaxBytes)
    {
      allowNetwork := false;
      timeout := if envTimeout.Some? then envTimeout.value else DefaultTimeout;
      maxBytes := if envMaxBytes.Some? then envMaxBytes.value else DefaultMaxBytes;
    }

    /** `set_network_policy`: the flag is always set; the limits change only
        when a value is given. */
    method SetNetworkPolicy(allow: bool, newTimeout: Option<real>, newMaxBytes: Option<int>)
      modifies this
      ensures allowNetwork == allow
      ensures timeout == (if newTimeout.Some? then newTimeout.value else old(timeout))
      ensures maxBytes == (if newMaxBytes.Some? then newMaxBytes.value else old(maxBytes))
    {
      allowNetwork := allow;
      if newTimeout.Some? {
        timeout := newTimeout.value;
      }
      if newMaxBytes.Some? {
        maxBytes := newMaxBytes.value;
      }
    }
  }
}
