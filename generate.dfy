/** The test-spec generator of `teds_core/generate.py`: for every direct
    child of a parent schema node it makes sure the test spec has a group
    under the child's ref, and seeds the group's `valid` cases with the
    child's schema `examples` that are not there yet. */
module Generate {
  import opened Wrappers
  import opened Text
  import opened Json
  import opened Refs

  // ---------------------------------------------------------------------
  // Groups

  /** `_ensure_group`: a copy of the group (an empty one for anything that
      is not a mapping) with `valid` and `invalid` added as null when
      absent. */
  function EnsureGroup(group: Value): (r: Entries)
    ensures HasKey(r, "valid") && HasKey(r, "invalid")
    ensures !group.Map? ==> r == [("valid", Null), ("invalid", Null)]
    ensures group.Map? ==> |group.entries| <= |r| && r[..|group.entries|] == group.entries
    ensures group.Map? ==> forall k :: HasKey(group.entries, k) ==> Lookup(r, k) == Lookup(group.entries, k)
  {
    var g := if group.Map? then group.entries else [];
    var g1 := SetDefault(g, "valid", Null);
    assert "valid" != "invalid" by { assert |"valid"| != |"invalid"|; }
    assert Lookup(g1, "valid").Some?;
    var r := SetDefault(g1, "invalid", Null);
    assert Lookup(r, "valid") == Lookup(g1, "valid");
    r
  }

  /** A group that already has both keys is kept as it is. */
  lemma EnsureGroupComplete(g: Entries)
    requires HasKey(g, "valid") && HasKey(g, "invalid")
    ensures EnsureGroup(Map(g)) == g
  {
  }

  /** Ensuring twice is ensuring once. */
  lemma EnsureGroupIdempotent(group: Value)
    ensures EnsureGroup(Map(EnsureGroup(group))) == EnsureGroup(group)
  {
    EnsureGroupComplete(EnsureGroup(group));
  }

  // ---------------------------------------------------------------------
  // The example merge

  /** The case an example is seeded as: `{payload: <example>, from_examples: true}`. */
  function SeededCase(payload: Value): Value {
    Map([("payload", payload), ("from_examples", Bool(true))])
  }

  /** The examples whose key is not yet among the cases, in their order. */
  function Missing(exs: seq<(string, Value)>, cases: Entries): (r: seq<(string, Value)>)
    ensures |r| <= |exs|
    ensures forall i :: 0 <= i < |r| ==> !HasKey(cases, r[i].0)
    decreases |exs|
  {
    if exs == [] then []
    else (if HasKey(cases, exs[0].0) then [] else [exs[0]]) + Missing(exs[1..], cases)
  }

  /** The seeded cases of a list of examples. */
  function Seeded(exs: seq<(string, Value)>): (r: Entries)
    ensures |r| == |exs|
    ensures forall i :: 0 <= i < |r| ==> r[i] == (exs[i].0, SeededCase(exs[i].1))
    decreases |exs|
  {
    if exs == [] then [] else [(exs[0].0, SeededCase(exs[0].1))] + Seeded(exs[1..])
  }

  /** The existing `valid` cases as a mapping (none when `valid` is not a
      mapping). */
  function CasesOf(valid: Value): Entries {
    if valid.Map? then valid.entries else []
  }

  /** The `valid` cases after the merge: the missing examples, seeded, at
      the front in their original order, then every existing case. */
  function Merge(valid: Value, exs: seq<(string, Value)>): (r: Entries)
    ensures |r| == |Missing(exs, CasesOf(valid))| + |CasesOf(valid)|
    ensures forall i :: 0 <= i < |CasesOf(valid)| ==> r[|r| - |CasesOf(valid)| + i] == CasesOf(valid)[i]
  {
    Seeded(Missing(exs, CasesOf(valid))) + CasesOf(valid)
  }

  /** The merge of `generate_from`: the existing cases are copied (a
      non-mapping `valid` counts as none), then the missing examples are
      inserted at position 0 one by one, last first. */
  method MergeExamples(valid: Value, exs: seq<(string, Value)>) returns (vm: Entries)
    ensures vm == Merge(valid, exs)
  {
    vm := if valid.Map? then valid.entries else [];
    var missing := Missing(exs, vm);
    ghost var cases := vm;
    var i := |missing|;
    assert missing[i..] == [];
    while i > 0
      invariant 0 <= i <= |missing|
      invariant vm == Seeded(missing[i..]) + cases
    {
      SeededStep(missing, i, cases);
      vm := [(missing[i - 1].0, SeededCase(missing[i - 1].1))] + vm;
      i := i - 1;
    }
    assert missing[0..] == missing;
  }

  /** One insertion at the front of the merge loop. */
  lemma SeededStep(missing: seq<(string, Value)>, i: nat, cases: Entries)
    requires 0 < i <= |missing|
    ensures [(missing[i - 1].0, SeededCase(missing[i - 1].1))] + (Seeded(missing[i..]) + cases)
         == Seeded(missing[i - 1..]) + cases
  {
    assert missing[i - 1..][1..] == missing[i..];
    assert Seeded(missing[i - 1..]) == [(missing[i - 1].0, SeededCase(missing[i - 1].1))] + Seeded(missing[i..]);
  }

  function Shift(i: Option<nat>, n: nat): Option<nat> {
    match i
    case None => None
    case Some(j) => Some(j + n)
  }

  lemma {:induction false} IndexOfConcat(a: Entries, b: Entries, k: string)
    ensures IndexOf(a + b, k) == if HasKey(a, k) then IndexOf(a, k) else Shift(IndexOf(b, k), |a|)
    decreases |a|
  {
    if a == [] {
      assert a + b == b;
    } else if a[0].0 != k {
      assert (a + b)[1..] == a[1..] + b;
      IndexOfConcat(a[1..], b, k);
      assert HasKey(a, k) <==> HasKey(a[1..], k) by {
        if HasKey(a, k) {
          var i :| 0 <= i < |a| && a[i].0 == k;
          assert a[1..][i - 1].0 == k;
        }
      }
    }
  }

  /** Where a key is found in two entry lists put one after the other. */
  lemma LookupConcat(a: Entries, b: Entries, k: string)
    ensures Lookup(a + b, k) == if HasKey(a, k) then Lookup(a, k) else Lookup(b, k)
  {
    IndexOfConcat(a, b, k);
    if !HasKey(a, k) && HasKey(b, k) {
      var j := IndexOf(b, k).value;
      assert (a + b)[j + |a|] == b[j];
    }
  }

  lemma HasKeyConcat(a: Entries, b: Entries, k: string)
    ensures HasKey(a + b, k) <==> HasKey(a, k) || HasKey(b, k)
  {
    if HasKey(a + b, k) {
      var i :| 0 <= i < |a + b| && (a + b)[i].0 == k;
      if i >= |a| { assert b[i - |a|].0 == k; }
    }
    if HasKey(b, k) {
      var i :| 0 <= i < |b| && b[i].0 == k;
      assert (a + b)[|a| + i].0 == k;
    }
    if HasKey(a, k) {
      var i :| 0 <= i < |a| && a[i].0 == k;
      assert (a + b)[i].0 == k;
    }
  }

  /** Every key of the merged cases is an existing case or an example. */
  lemma {:induction false} MissingKeys(exs: seq<(string, Value)>, cases: Entries, k: string)
    ensures HasKey(Seeded(Missing(exs, cases)), k) <==> !HasKey(cases, k) && exists i :: 0 <= i < |exs| && exs[i].0 == k
    decreases |exs|
  {
    if exs != [] {
      MissingKeys(exs[1..], cases, k);
      var head := if HasKey(cases, exs[0].0) then [] else [exs[0]];
      var m := Missing(exs, cases);
      assert m == head + Missing(exs[1..], cases);
      assert Seeded(m) == Seeded(head) + Seeded(Missing(exs[1..], cases)) by {
        if head != [] { assert m[1..] == Missing(exs[1..], cases); }
      }
      HasKeyConcat(Seeded(head), Seeded(Missing(exs[1..], cases)), k);
      ExampleKeyCons(exs, k);
    }
  }

  /** An example carries key `k` when the first does or one of the rest does. */
  lemma ExampleKeyCons(exs: seq<(string, Value)>, k: string)
    requires exs != []
    ensures (exists i :: 0 <= i < |exs| && exs[i].0 == k)
        <==> exs[0].0 == k || exists i :: 0 <= i < |exs[1..]| && exs[1..][i].0 == k
  {
    if exists i :: 0 <= i < |exs| && exs[i].0 == k {
      var i :| 0 <= i < |exs| && exs[i].0 == k;
      if i > 0 { assert exs[1..][i - 1].0 == k; }
    }
    if exists i :: 0 <= i < |exs[1..]| && exs[1..][i].0 == k {
      var i :| 0 <= i < |exs[1..]| && exs[1..][i].0 == k;
      assert exs[i + 1].0 == k;
    }
  }

  /** After the merge every example's key is a case, and no other key
      appears than the existing cases' and the examples'. */
  lemma MergeKeys(valid: Value, exs: seq<(string, Value)>, k: string)
    ensures HasKey(Merge(valid, exs), k) <==> HasKey(CasesOf(valid), k) || exists i :: 0 <= i < |exs| && exs[i].0 == k
  {
    var cases := CasesOf(valid);
    HasKeyConcat(Seeded(Missing(exs, cases)), cases, k);
    MissingKeys(exs, cases, k);
  }

  /** The merge never changes an existing case. */
  lemma MergeKeepsExisting(valid: Value, exs: seq<(string, Value)>, k: string)
    requires HasKey(CasesOf(valid), k)
    ensures Lookup(Merge(valid, exs), k) == Lookup(CasesOf(valid), k)
  {
    var cases := CasesOf(valid);
    MissingKeys(exs, cases, k);
    LookupConcat(Seeded(Missing(exs, cases)), cases, k);
  }

  lemma MissingUnfold(exs: seq<(string, Value)>, cases: Entries)
    requires exs != []
    ensures Seeded(Missing(exs, cases))
         == (if HasKey(cases, exs[0].0) then [] else [(exs[0].0, SeededCase(exs[0].1))]) + Seeded(Missing(exs[1..], cases))
  {
    var m := Missing(exs, cases);
    if !HasKey(cases, exs[0].0) {
      assert m[1..] == Missing(exs[1..], cases);
    }
  }

  /** The seeded case of an example that the key-distinct examples list
      holds. */
  lemma {:induction false} SeededLookup(exs: seq<(string, Value)>, cases: Entries, i: nat)
    requires i < |exs| && !HasKey(cases, exs[i].0)
    requires forall a, b :: 0 <= a < b < |exs| ==> exs[a].0 != exs[b].0
    ensures Lookup(Seeded(Missing(exs, cases)), exs[i].0) == Some(SeededCase(exs[i].1))
    decreases |exs|
  {
    var k := exs[i].0;
    var head: Entries := if HasKey(cases, exs[0].0) then [] else [(exs[0].0, SeededCase(exs[0].1))];
    var rest := Seeded(Missing(exs[1..], cases));
    MissingUnfold(exs, cases);
    LookupConcat(head, rest, k);
    if i == 0 {
      assert head == [(k, SeededCase(exs[0].1))];
      assert IndexOf(head, k) == Some(0);
    } else {
      assert exs[1..][i - 1] == exs[i];
      DistinctTail(exs);
      SeededLookup(exs[1..], cases, i - 1);
      assert exs[0].0 != k;
      assert !HasKey(head, k);
    }
  }

  /** Keys that are pairwise distinct stay so without the first entry. */
  lemma DistinctTail(exs: seq<(string, Value)>)
    requires exs != []
    requires forall a, b :: 0 <= a < b < |exs| ==> exs[a].0 != exs[b].0
    ensures forall a, b :: 0 <= a < b < |exs[1..]| ==> exs[1..][a].0 != exs[1..][b].0
  {
    forall a, b | 0 <= a < b < |exs[1..]| ensures exs[1..][a].0 != exs[1..][b].0 {
      assert exs[1..][a] == exs[a + 1] && exs[1..][b] == exs[b + 1];
    }
  }

  /** An example whose key is not yet a case becomes the seeded case. */
  lemma MergeAddsMissing(valid: Value, exs: seq<(string, Value)>, i: nat)
    requires i < |exs| && !HasKey(CasesOf(valid), exs[i].0)
    requires forall a, b :: 0 <= a < b < |exs| ==> exs[a].0 != exs[b].0
    ensures Lookup(Merge(valid, exs), exs[i].0) == Some(SeededCase(exs[i].1))
  {
    var cases := CasesOf(valid);
    SeededLookup(exs, cases, i);
    LookupConcat(Seeded(Missing(exs, cases)), cases, exs[i].0);
  }

  lemma {:induction false} MissingNone(exs: seq<(string, Value)>, cases: Entries)
    requires forall i :: 0 <= i < |exs| ==> HasKey(cases, exs[i].0)
    ensures Missing(exs, cases) == []
    decreases |exs|
  {
    if exs != [] {
      assert forall i :: 0 <= i < |exs[1..]| ==> exs[1..][i] == exs[i + 1];
      MissingNone(exs[1..], cases);
    }
  }

  /** Merging the same examples again adds nothing. */
  lemma MergeIdempotent(valid: Value, exs: seq<(string, Value)>)
    ensures Merge(Map(Merge(valid, exs)), exs) == Merge(valid, exs)
  {
    var r := Merge(valid, exs);
    forall i | 0 <= i < |exs| ensures HasKey(r, exs[i].0) {
      MergeKeys(valid, exs, exs[i].0);
    }
    MissingNone(exs, r);
  }

  /** The group of one child after `generate_from`: ensured, and, when the
      child has examples, with its `valid` cases merged. */
  function GroupFor(prior: Value, exs: seq<(string, Value)>): (r: Entries)
    ensures HasKey(r, "valid") && HasKey(r, "invalid")
    ensures exs != [] ==> Lookup(r, "valid") == Some(Map(Merge(GetOr(EnsureGroup(prior), "valid", Null), exs)))
    ensures forall k :: k != "valid" ==> Lookup(r, k) == Lookup(EnsureGroup(prior), k)
  {
    var g := EnsureGroup(prior);
    if exs == [] then g else Put(g, "valid", Map(Merge(GetOr(g, "valid", Null), exs)))
  }

  /** A child without examples keeps whatever `valid` value it had (null
      when it had none). */
  lemma NoExamplesKeepsValid(prior: Value)
    ensures GetOr(GroupFor(prior, []), "valid", Null) == (if prior.Map? then GetOr(prior.entries, "valid", Null) else Null)
  {
    var g := EnsureGroup(prior);
    if prior.Map? && !HasKey(prior.entries, "valid") {
      assert SetDefault(prior.entries, "valid", Null) == prior.entries + [("valid", Null)];
      assert Lookup(SetDefault(prior.entries, "valid", Null), "valid") == Some(Null);
    }
  }

  lemma PutSame(m: Entries, k: string, v: Value)
    requires Lookup(m, k) == Some(v)
    ensures Put(m, k, v) == m
  {
    var i := IndexOf(m, k).value;
    assert m[i] == (k, v);
  }

  /** Generating a child's group again from the same examples changes
      nothing. */
  lemma GroupForIdempotent(prior: Value, exs: seq<(string, Value)>)
    ensures GroupFor(Map(GroupFor(prior, exs)), exs) == GroupFor(prior, exs)
  {
    var g1 := GroupFor(prior, exs);
    EnsureGroupComplete(g1);
    if exs != [] {
      var g := EnsureGroup(prior);
      var m := Merge(GetOr(g, "valid", Null), exs);
      assert GetOr(g1, "valid", Null) == Map(m);
      MergeIdempotent(GetOr(g, "valid", Null), exs);
      PutSame(g1, "valid", Map(m));
    }
  }

  // ---------------------------------------------------------------------
  // The children of the parent node

  /** The ref of a child: `<file>#/<join_fragment(parent fragment, child)>`. */
  function ChildRef(filePart: string, parentFragment: string, key: string): string {
    filePart + "#/" + JoinFragment(parentFragment, key)
  }

  /** Different children have different refs. */
  lemma ChildRefInjective(filePart: string, parentFragment: string, a: string, b: string)
    requires ChildRef(filePart, parentFragment, a) == ChildRef(filePart, parentFragment, b)
    ensures a == b
  {
    var p := Strip(parentFragment, Slash);
    var mid := if p == "" then "" else p + "/";
    var pre := filePart + "#/" + mid;
    ChildRefShape(filePart, parentFragment, a);
    ChildRefShape(filePart, parentFragment, b);
    SuffixCancel(pre, a, b);
  }

  lemma ChildRefShape(filePart: string, parentFragment: string, key: string)
    ensures var p := Strip(parentFragment, Slash);
      ChildRef(filePart, parentFragment, key) == filePart + "#/" + (if p == "" then "" else p + "/") + key
  {
    RegroupRef(filePart, Strip(parentFragment, Slash), key, JoinFragment(parentFragment, key));
  }

  lemma RegroupRef(filePart: string, p: string, key: string, joined: string)
    requires p == "" ==> joined == key
    requires p != "" ==> joined == p + "/" + key
    ensures filePart + "#/" + joined == filePart + "#/" + (if p == "" then "" else p + "/") + key
  {
    if p != "" {
      assert filePart + "#/" + (p + "/" + key) == filePart + "#/" + (p + "/") + key;
    } else {
      assert filePart + "#/" + key == filePart + "#/" + "" + key;
    }
  }

  lemma SuffixCancel(pre: string, a: string, b: string)
    requires pre + a == pre + b
    ensures a == b
  {
    assert a == (pre + a)[|pre|..];
    assert b == (pre + b)[|pre|..];
  }

  /** The ref of each child key. */
  type RefOf = string -> string

  function ChildRefs(filePart: string, parentFragment: string): RefOf {
    key => ChildRef(filePart, parentFragment, key)
  }

  /** The examples `collect_examples` finds for each ref. */
  type ExamplesOf = string -> seq<(string, Value)>

  function ExamplesIn(loaded: Value): ExamplesOf {
    ref => Examples(loaded, ref)
  }

  /** One child: its group is ensured, merged with its examples and stored
      under its ref. */
  function ChildStep(tests: Entries, ref: string, exsOf: ExamplesOf): (r: Entries)
    ensures Lookup(r, ref) == Some(Map(GroupFor(GetOr(tests, ref, Null), exsOf(ref))))
    ensures forall k :: k != ref ==> Lookup(r, k) == Lookup(tests, k)
  {
    Put(tests, ref, Map(GroupFor(GetOr(tests, ref, Null), exsOf(ref))))
  }

  /** The loop of `generate_from` over the keys of the parent node. */
  function ChildrenFrom(tests: Entries, keys: seq<string>, refOf: RefOf, exsOf: ExamplesOf): Entries
    decreases |keys|
  {
    if keys == [] then tests
    else ChildrenFrom(ChildStep(tests, refOf(keys[0]), exsOf), keys[1..], refOf, exsOf)
  }

  /** Refs that are no child's ref are untouched. */
  lemma {:induction false} ChildrenKeepOthers(tests: Entries, keys: seq<string>, refOf: RefOf, exsOf: ExamplesOf, ref: string)
    requires forall i :: 0 <= i < |keys| ==> refOf(keys[i]) != ref
    ensures Lookup(ChildrenFrom(tests, keys, refOf, exsOf), ref) == Lookup(tests, ref)
    decreases |keys|
  {
    if keys != [] {
      assert refOf(keys[0]) != ref;
      assert forall i :: 0 <= i < |keys[1..]| ==> keys[1..][i] == keys[i + 1];
      ChildrenKeepOthers(ChildStep(tests, refOf(keys[0]), exsOf), keys[1..], refOf, exsOf, ref);
    }
  }

  /** With distinct keys and distinct refs, every child gets exactly the
      group `GroupFor` builds from what the tests held under its ref
      before. */
  lemma {:induction false} ChildrenGroups(tests: Entries, keys: seq<string>, refOf: RefOf, exsOf: ExamplesOf, i: nat)
    requires i < |keys|
    requires forall a, b :: 0 <= a < b < |keys| ==> refOf(keys[a]) != refOf(keys[b])
    ensures Lookup(ChildrenFrom(tests, keys, refOf, exsOf), refOf(keys[i]))
         == Some(Map(GroupFor(GetOr(tests, refOf(keys[i]), Null), exsOf(refOf(keys[i])))))
    decreases |keys|
  {
    var ref := refOf(keys[i]);
    var t1 := ChildStep(tests, refOf(keys[0]), exsOf);
    var rest := keys[1..];
    if i == 0 {
      assert forall j :: 0 <= j < |rest| ==> refOf(rest[j]) != ref by {
        forall j | 0 <= j < |rest| ensures refOf(rest[j]) != ref {
          assert rest[j] == keys[j + 1];
          assert refOf(keys[0]) != refOf(keys[j + 1]);
        }
      }
      ChildrenKeepOthers(t1, rest, refOf, exsOf, ref);
    } else {
      assert refOf(keys[0]) != ref;
      assert GetOr(t1, ref, Null) == GetOr(tests, ref, Null);
      assert rest[i - 1] == keys[i];
      assert forall a, b :: 0 <= a < b < |rest| ==> refOf(rest[a]) != refOf(rest[b]) by {
        forall a, b | 0 <= a < b < |rest| ensures refOf(rest[a]) != refOf(rest[b]) {
          assert rest[a] == keys[a + 1] && rest[b] == keys[b + 1];
        }
      }
      ChildrenGroups(t1, rest, refOf, exsOf, i - 1);
    }
  }

  /** The refs of the tests afterwards are the refs before plus the
      children's refs, and no others. */
  lemma {:induction false} ChildrenRefs(tests: Entries, keys: seq<string>, refOf: RefOf, exsOf: ExamplesOf, ref: string)
    ensures HasKey(ChildrenFrom(tests, keys, refOf, exsOf), ref)
        <==> HasKey(tests, ref) || exists i :: 0 <= i < |keys| && refOf(keys[i]) == ref
    decreases |keys|
  {
    if keys != [] {
      var r0 := refOf(keys[0]);
      var t1 := ChildStep(tests, r0, exsOf);
      ChildrenRefs(t1, keys[1..], refOf, exsOf, ref);
      assert HasKey(t1, ref) <==> HasKey(tests, ref) || r0 == ref by {
        assert Lookup(t1, r0).Some?;
        if r0 != ref { assert Lookup(t1, ref) == Lookup(tests, ref); }
      }
      if exists i :: 0 <= i < |keys| && refOf(keys[i]) == ref {
        var i :| 0 <= i < |keys| && refOf(keys[i]) == ref;
        if i > 0 { assert refOf(keys[1..][i - 1]) == ref; }
      }
      if exists i :: 0 <= i < |keys[1..]| && refOf(keys[1..][i]) == ref {
        var i :| 0 <= i < |keys[1..]| && refOf(keys[1..][i]) == ref;
        assert refOf(keys[i + 1]) == ref;
      }
    }
  }

  // ---------------------------------------------------------------------
  // generate_from

  /** The test spec file before the run: absent, present but unreadable
      (reading or parsing raised), or loaded. */
  datatype SpecFile = Absent | Unreadable | Loaded(content: Value)

  /** Why `generate_from` fails: the spec cannot be read, the loaded spec is
      not a mapping (`doc.get` raises), the parent schema cannot be read,
      or the spec cannot be written. */
  datatype GenError = SpecReadFailed | SpecNotMapping | ParentResolveFailed | WriteFailed

  /** The document `generate_from` starts from: `load(...) or {}`, or `{}`
      when the file does not exist. */
  function StartDoc(spec: SpecFile): (r: Result<Entries, GenError>)
    ensures spec.Absent? ==> r == Success([])
    ensures spec.Unreadable? ==> r == Failure(SpecReadFailed)
    ensures spec.Loaded? && !Truthy(spec.content) ==> r == Success([])
    ensures spec.Loaded? && spec.content.Map? ==> r == Success(spec.content.entries)
    ensures spec.Loaded? && Truthy(spec.content) && !spec.content.Map? ==> r == Failure(SpecNotMapping)
  {
    match spec
    case Absent => Success([])
    case Unreadable => Failure(SpecReadFailed)
    case Loaded(v) =>
      var doc := Or(v, Map([]));
      if doc.Map? then Success(doc.entries) else Failure(SpecNotMapping)
  }

  /** The tests the run starts from: the document's `tests`, or `{}` when
      that is not a mapping. */
  function StartTests(doc: Entries): Entries {
    var t := GetOr(doc, "tests", Null);
    if t.Map? then t.entries else []
  }

  /** The tests after the run, given the parent schema file's loaded
      content: unchanged when the parent node is not a mapping. */
  function EndTests(doc: Entries, parentRef: string, loaded: Value): Entries {
    var node := NodeAt(loaded, parentRef);
    if node.Map?
    then ChildrenFrom(StartTests(doc), Keys(node.entries), ChildRefs(FilePart(parentRef), LStrip(Fragment(parentRef), Slash)),
                      ExamplesIn(loaded))
    else StartTests(doc)
  }

  /** `generate_from`: the document written back, with `tests` holding the
      generated groups.  `schema` is the parent schema file's content
      (`None` when reading it raised) and `writeOk` whether writing the
      spec succeeds. */
  function GenerateSpec(parentRef: string, spec: SpecFile, schema: Option<Value>, writeOk: bool): (r: Result<Value, GenError>)
    ensures spec.Unreadable? ==> r == Failure(SpecReadFailed)
    ensures StartDoc(spec).Success? && schema.None? ==> r == Failure(ParentResolveFailed)
    ensures StartDoc(spec).Success? && schema.Some? && !writeOk ==> r == Failure(WriteFailed)
    ensures r.Success? <==> StartDoc(spec).Success? && schema.Some? && writeOk
    ensures r.Success? ==>
      && r.value.Map?
      && Lookup(r.value.entries, "tests") == Some(Map(EndTests(StartDoc(spec).value, parentRef, schema.value)))
      && forall k :: k != "tests" ==> Lookup(r.value.entries, k) == Lookup(StartDoc(spec).value, k)
  {
    match StartDoc(spec)
    case Failure(e) => Failure(e)
    case Success(doc) =>
      match schema
      case None => Failure(ParentResolveFailed)
      case Some(loaded) =>
        if !writeOk then Failure(WriteFailed)
        else Success(Map(Put(doc, "tests", Map(EndTests(doc, parentRef, loaded)))))
  }

  /** `generate_from`, keeping `tests` as a local that is stored back into
      the document before it is written. */
  method GenerateFrom(parentRef: string, spec: SpecFile, schema: Option<Value>, writeOk: bool) returns (r: Result<Value, GenError>)
    ensures r == GenerateSpec(parentRef, spec, schema, writeOk)
  {
    var doc: Entries;
    match spec {
      case Absent => doc := [];
      case Unreadable => return Failure(SpecReadFailed);
      case Loaded(v) =>
        var d := Or(v, Map([]));
        if !d.Map? {
          return Failure(SpecNotMapping);
        }
        doc := d.entries;
    }
    var t := GetOr(doc, "tests", Null);
    var tests: Entries := if t.Map? then t.entries else [];
    if schema.None? {
      return Failure(ParentResolveFailed);
    }
    var node, fragment := ResolveSchemaNode(schema.value, parentRef);
    if node.Map? {
      tests := GenerateChildren(tests, Keys(node.entries), FilePart(parentRef), fragment, schema.value);
    }
    if !writeOk {
      return Failure(WriteFailed);
    }
    r := Success(Map(Put(doc, "tests", Map(tests))));
  }

  /** The loop of `generate_from` over the children of a mapping parent
      node. */
  method GenerateChildren(tests0: Entries, keys: seq<string>, filePart: string, fragment: string, loaded: Value)
    returns (tests: Entries)
    ensures tests == ChildrenFrom(tests0, keys, ChildRefs(filePart, fragment), ExamplesIn(loaded))
  {
    tests := tests0;
    var i := 0;
    while i < |keys|
      invariant 0 <= i <= |keys|
      invariant ChildrenFrom(tests0, keys, ChildRefs(filePart, fragment), ExamplesIn(loaded))
             == ChildrenFrom(tests, keys[i..], ChildRefs(filePart, fragment), ExamplesIn(loaded))
    {
      assert keys[i..][1..] == keys[i + 1..];
      var childRef := filePart + "#/" + JoinFragment(fragment, keys[i]);
      assert childRef == ChildRefs(filePart, fragment)(keys[i]);
      var prior := GetOr(tests, childRef, Null);
      var group := EnsureGroup(prior);
      var exList := CollectExamples(loaded, childRef);
      assert exList == ExamplesIn(loaded)(childRef);
      if exList != [] {
        var vm := MergeExamples(GetOr(group, "valid", Null), exList);
        group := Put(group, "valid", Map(vm));
      }
      assert group == GroupFor(prior, exList);
      ghost var before := tests;
      tests := Put(tests, childRef, Map(group));
      assert tests == ChildStep(before, childRef, ExamplesIn(loaded));
      i := i + 1;
    }
  }

  // ---------------------------------------------------------------------
  // Properties of a run

  /** A `tests` value that is not a mapping is replaced by one; the written
      document always holds a mapping under `tests`. */
  lemma NonMappingTestsReplaced(parentRef: string, doc: Entries, schema: Value)
    requires !GetOr(doc, "tests", Null).Map?
    requires !NodeAt(schema, parentRef).Map?
    ensures GenerateSpec(parentRef, Loaded(Map(doc)), Some(schema), true)
         == Success(Map(Put(doc, "tests", Map([]))))
  {
  }

  /** A parent node that is not a mapping adds no group: the document is
      written back with its tests as they were. */
  lemma NonMappingParentWritesBack(parentRef: string, doc: Entries, schema: Value)
    requires GetOr(doc, "tests", Null).Map?
    requires !NodeAt(schema, parentRef).Map?
    ensures GenerateSpec(parentRef, Loaded(Map(doc)), Some(schema), true) == Success(Map(doc))
  {
    var t := GetOr(doc, "tests", Null);
    if doc == [] {
    } else {
      assert Lookup(doc, "tests") == Some(t);
      PutSame(doc, "tests", t);
    }
  }

  /** With a mapping parent, every direct child has its group under
      `<file>#/<joined fragment>`, built from what was there before and the
      child's own examples. */
  lemma EveryChildHasItsGroup(parentRef: string, doc: Entries, loaded: Value, i: nat)
    requires NodeAt(loaded, parentRef).Map?
    requires UniqueKeys(NodeAt(loaded, parentRef).entries)
    requires i < |NodeAt(loaded, parentRef).entries|
    ensures var ref := ChildRef(FilePart(parentRef), LStrip(Fragment(parentRef), Slash), NodeAt(loaded, parentRef).entries[i].0);
      Lookup(EndTests(doc, parentRef, loaded), ref)
        == Some(Map(GroupFor(GetOr(StartTests(doc), ref, Null), Examples(loaded, ref))))
  {
    var node := NodeAt(loaded, parentRef);
    var fp, pf := FilePart(parentRef), LStrip(Fragment(parentRef), Slash);
    var refOf := ChildRefs(fp, pf);
    var keys := Keys(node.entries);
    forall a, b | 0 <= a < b < |keys| ensures refOf(keys[a]) != refOf(keys[b]) {
      if refOf(keys[a]) == refOf(keys[b]) {
        ChildRefInjective(fp, pf, keys[a], keys[b]);
      }
    }
    ChildrenGroups(StartTests(doc), keys, refOf, ExamplesIn(loaded), i);
  }

  /** The groups of refs that are not a child's ref are untouched. */
  lemma OtherRefsUntouched(parentRef: string, doc: Entries, loaded: Value, ref: string)
    requires forall i :: NodeAt(loaded, parentRef).Map? && 0 <= i < |NodeAt(loaded, parentRef).entries|
               ==> ChildRef(FilePart(parentRef), LStrip(Fragment(parentRef), Slash), NodeAt(loaded, parentRef).entries[i].0) != ref
    ensures Lookup(EndTests(doc, parentRef, loaded), ref) == Lookup(StartTests(doc), ref)
  {
    var node := NodeAt(loaded, parentRef);
    if node.Map? {
      var fp, pf := FilePart(parentRef), LStrip(Fragment(parentRef), Slash);
      var refOf := ChildRefs(fp, pf);
      var keys := Keys(node.entries);
      assert forall i :: 0 <= i < |keys| ==> refOf(keys[i]) != ref by {
        forall i | 0 <= i < |keys| ensures refOf(keys[i]) != ref {
          assert node.entries[i].0 == keys[i];
        }
      }
      ChildrenKeepOthers(StartTests(doc), keys, refOf, ExamplesIn(loaded), ref);
    }
  }

  /** After the run the tests hold the refs they held before and the refs
      of the parent's children, and nothing else. */
  lemma OneGroupPerChild(parentRef: string, doc: Entries, loaded: Value, ref: string)
    requires NodeAt(loaded, parentRef).Map?
    ensures HasKey(EndTests(doc, parentRef, loaded), ref)
        <==> (|| HasKey(StartTests(doc), ref)
              || exists i :: 0 <= i < |NodeAt(loaded, parentRef).entries|
                   && ChildRef(FilePart(parentRef), LStrip(Fragment(parentRef), Slash), NodeAt(loaded, parentRef).entries[i].0) == ref)
  {
    OneGroupPerKey(StartTests(doc), NodeAt(loaded, parentRef).entries, FilePart(parentRef),
                   LStrip(Fragment(parentRef), Slash), ExamplesIn(loaded), ref);
  }

  lemma OneGroupPerKey(start: Entries, entries: Entries, fp: string, pf: string, exsOf: ExamplesOf, ref: string)
    ensures HasKey(ChildrenFrom(start, Keys(entries), ChildRefs(fp, pf), exsOf), ref)
        <==> (|| HasKey(start, ref)
              || exists i :: 0 <= i < |entries| && ChildRef(fp, pf, entries[i].0) == ref)
  {
    var refOf := ChildRefs(fp, pf);
    var keys := Keys(entries);
    ChildrenRefs(start, keys, refOf, exsOf, ref);
    if exists i :: 0 <= i < |keys| && refOf(keys[i]) == ref {
      var i :| 0 <= i < |keys| && refOf(keys[i]) == ref;
      assert ChildRef(fp, pf, entries[i].0) == ref;
    }
    if exists i :: 0 <= i < |entries| && ChildRef(fp, pf, entries[i].0) == ref {
      var i :| 0 <= i < |entries| && ChildRef(fp, pf, entries[i].0) == ref;
      assert refOf(keys[i]) == ref;
    }
  }

  /** Every child's group is already what one more step would make of it. */
  predicate Settled(tests: Entries, keys: seq<string>, refOf: RefOf, exsOf: ExamplesOf) {
    forall i :: 0 <= i < |keys| ==>
      Lookup(tests, refOf(keys[i])) == Some(Map(GroupFor(GetOr(tests, refOf(keys[i]), Null), exsOf(refOf(keys[i])))))
  }

  /** A settled test map is left as it is, entry for entry. */
  lemma {:induction false} SettledFixed(tests: Entries, keys: seq<string>, refOf: RefOf, exsOf: ExamplesOf)
    requires Settled(tests, keys, refOf, exsOf)
    ensures ChildrenFrom(tests, keys, refOf, exsOf) == tests
    decreases |keys|
  {
    if keys != [] {
      var ref := refOf(keys[0]);
      assert Lookup(tests, ref) == Some(Map(GroupFor(GetOr(tests, ref, Null), exsOf(ref))));
      PutSame(tests, ref, Map(GroupFor(GetOr(tests, ref, Null), exsOf(ref))));
      assert ChildStep(tests, ref, exsOf) == tests;
      var rest := keys[1..];
      assert Settled(tests, rest, refOf, exsOf) by {
        forall i | 0 <= i < |rest|
          ensures Lookup(tests, refOf(rest[i])) == Some(Map(GroupFor(GetOr(tests, refOf(rest[i]), Null), exsOf(refOf(rest[i])))))
        {
          assert rest[i] == keys[i + 1];
        }
      }
      SettledFixed(tests, rest, refOf, exsOf);
    }
  }

  /** One run settles every child of distinct refs. */
  lemma RunSettles(tests: Entries, keys: seq<string>, refOf: RefOf, exsOf: ExamplesOf)
    requires forall a, b :: 0 <= a < b < |keys| ==> refOf(keys[a]) != refOf(keys[b])
    ensures Settled(ChildrenFrom(tests, keys, refOf, exsOf), keys, refOf, exsOf)
  {
    var t1 := ChildrenFrom(tests, keys, refOf, exsOf);
    forall i | 0 <= i < |keys|
      ensures Lookup(t1, refOf(keys[i])) == Some(Map(GroupFor(GetOr(t1, refOf(keys[i]), Null), exsOf(refOf(keys[i])))))
    {
      var ref := refOf(keys[i]);
      ChildrenGroups(tests, keys, refOf, exsOf, i);
      GroupForIdempotent(GetOr(tests, ref, Null), exsOf(ref));
    }
  }

  /** Generating again into the document a run has written, from the same
      parent schema, writes the same document: existing groups and cases
      are kept and examples already seeded are not seeded twice. */
  lemma GenerateTwice(parentRef: string, spec: SpecFile, loaded: Value)
    requires NodeAt(loaded, parentRef).Map? ==> UniqueKeys(NodeAt(loaded, parentRef).entries)
    requires GenerateSpec(parentRef, spec, Some(loaded), true).Success?
    ensures var written := GenerateSpec(parentRef, spec, Some(loaded), true).value;
      GenerateSpec(parentRef, Loaded(written), Some(loaded), true) == Success(written)
  {
    var doc := StartDoc(spec).value;
    var end := EndTests(doc, parentRef, loaded);
    var w := Put(doc, "tests", Map(end));
    assert GenerateSpec(parentRef, spec, Some(loaded), true) == Success(Map(w));
    assert HasKey(w, "tests");
    assert StartDoc(Loaded(Map(w))) == Success(w);
    assert StartTests(w) == end;
    var node := NodeAt(loaded, parentRef);
    if node.Map? {
      var fp, pf := FilePart(parentRef), LStrip(Fragment(parentRef), Slash);
      var refOf := ChildRefs(fp, pf);
      var keys := Keys(node.entries);
      forall a, b | 0 <= a < b < |keys| ensures refOf(keys[a]) != refOf(keys[b]) {
        if refOf(keys[a]) == refOf(keys[b]) {
          ChildRefInjective(fp, pf, keys[a], keys[b]);
        }
      }
      RunSettles(StartTests(doc), keys, refOf, ExamplesIn(loaded));
      SettledFixed(end, keys, refOf, ExamplesIn(loaded));
    }
    assert EndTests(w, parentRef, loaded) == end;
    PutSame(w, "tests", Map(end));
  }
}
