/** The report pipeline of `teds_core/report.py`: counting the classified
    cases of an output document, totalling the counts of the report inputs,
    and running the gate and `validate_doc` over several test specs with
    the combined exit code. */
module Report {
  import opened Wrappers
  import opened Json
  import Validate
  import Version

  // ---------------------------------------------------------------------
  // _compute_counts

  /** The three counters of `_compute_counts`. */
  datatype Counts = Counts(success: int, warning: int, error: int)

  const Zero := Counts(0, 0, 0)

  function Total(c: Counts): int {
    c.success + c.warning + c.error
  }

  function Plus(a: Counts, b: Counts): Counts {
    Counts(a.success + b.success, a.warning + b.warning, a.error + b.error)
  }

  /** The counter a case goes to: `(c or {}).get("result", "SUCCESS")` is
      compared with `ERROR` and `WARNING`, everything else is a success;
      `None` when a truthy case is not a mapping (`.get` raises). */
  function Bucket(c: Value): (r: Option<Validate.Outcome>)
    ensures r.None? <==> Truthy(c) && !c.Map?
  {
    var d := Or(c, Map([]));
    if !d.Map? then None
    else
      var res := GetOr(d.entries, "result", Str("SUCCESS"));
      if res == Str("ERROR") then Some(Validate.ERROR)
      else if res == Str("WARNING") then Some(Validate.WARNING)
      else Some(Validate.SUCCESS)
  }

  /** `ERROR` and `WARNING` results go to their counters; a null case, a
      case without `result` and any other result are successes. */
  lemma BucketByResult(c: Value)
    ensures Bucket(c) == Some(Validate.ERROR) <==> c.Map? && Lookup(c.entries, "result") == Some(Str("ERROR"))
    ensures Bucket(c) == Some(Validate.WARNING) <==> c.Map? && Lookup(c.entries, "result") == Some(Str("WARNING"))
    ensures !Truthy(c) ==> Bucket(c) == Some(Validate.SUCCESS)
    ensures c.Map? && !HasKey(c.entries, "result") ==> Bucket(c) == Some(Validate.SUCCESS)
  {
  }

  /** One count for the outcome. */
  function One(o: Validate.Outcome): (c: Counts)
    ensures Total(c) == 1
  {
    match o
    case SUCCESS => Counts(1, 0, 0)
    case WARNING => Counts(0, 1, 0)
    case ERROR => Counts(0, 0, 1)
  }

  /** The loop over the cases of one group. */
  function CasesFrom(acc: Counts, cases: Entries): Option<Counts>
    decreases |cases|
  {
    if cases == [] then Some(acc)
    else
      match Bucket(cases[0].1)
      case None => None
      case Some(o) => CasesFrom(Plus(acc, One(o)), cases[1..])
  }

  /** `grp.get(key) or {}`, when it is a mapping; otherwise it contributes
      nothing. */
  function CasesIn(grp: Entries, key: string): (r: Entries)
    ensures !GetOr(grp, key, Null).Map? ==> r == []
  {
    var cases := Or(GetOr(grp, key, Null), Map([]));
    if cases.Map? then cases.entries else []
  }

  /** One group: its `valid` then its `invalid` cases; `None` when the
      group is not a mapping (`grp.get` raises). */
  function GroupFrom(acc: Counts, grp: Value): Option<Counts> {
    if !grp.Map? then None
    else
      match CasesFrom(acc, CasesIn(grp.entries, "valid"))
      case None => None
      case Some(a) => CasesFrom(a, CasesIn(grp.entries, "invalid"))
  }

  /** The loop over the refs of `tests`. */
  function TestsFrom(acc: Counts, tests: Entries): Option<Counts>
    decreases |tests|
  {
    if tests == [] then Some(acc)
    else
      match GroupFrom(acc, tests[0].1)
      case None => None
      case Some(a) => TestsFrom(a, tests[1..])
  }

  /** `_compute_counts`: `None` when an exception escapes. */
  function CountsOf(doc: Entries): Option<Counts> {
    var tests := Or(GetOr(doc, "tests", Null), Map([]));
    if !tests.Map? then None else TestsFrom(Zero, tests.entries)
  }

  // An independent statement of what is counted

  /** Whether a case can be counted. */
  predicate Countable(c: Value) {
    !Truthy(c) || c.Map?
  }

  predicate AllCountable(cases: Entries) {
    forall i :: 0 <= i < |cases| ==> Countable(cases[i].1)
  }

  predicate GroupCountable(grp: Value) {
    grp.Map? && AllCountable(CasesIn(grp.entries, "valid")) && AllCountable(CasesIn(grp.entries, "invalid"))
  }

  /** The number of cases with outcome `o`. */
  function NumWith(cases: Entries, o: Validate.Outcome): nat
    decreases |cases|
  {
    if cases == [] then 0
    else (if Bucket(cases[0].1) == Some(o) then 1 else 0) + NumWith(cases[1..], o)
  }

  /** The counts of a list of cases, as three independent tallies. */
  function Tally(cases: Entries): Counts {
    Counts(NumWith(cases, Validate.SUCCESS), NumWith(cases, Validate.WARNING), NumWith(cases, Validate.ERROR))
  }

  function GroupTally(grp: Entries): Counts {
    Plus(Tally(CasesIn(grp, "valid")), Tally(CasesIn(grp, "invalid")))
  }

  function TestsTally(tests: Entries): Counts
    requires forall i :: 0 <= i < |tests| ==> tests[i].1.Map?
    decreases |tests|
  {
    if tests == [] then Zero else Plus(GroupTally(tests[0].1.entries), TestsTally(tests[1..]))
  }

  /** The number of cases of all mapping-valued groups. */
  function NumCases(tests: Entries): nat
    requires forall i :: 0 <= i < |tests| ==> tests[i].1.Map?
    decreases |tests|
  {
    if tests == [] then 0
    else |CasesIn(tests[0].1.entries, "valid")| + |CasesIn(tests[0].1.entries, "invalid")| + NumCases(tests[1..])
  }

  /** Counting a list of cases fails exactly when one of them is a truthy
      non-mapping, and otherwise adds each case to exactly one counter. */
  lemma {:induction false} CasesFromTally(acc: Counts, cases: Entries)
    ensures CasesFrom(acc, cases).Some? <==> AllCountable(cases)
    ensures CasesFrom(acc, cases).Some? ==> CasesFrom(acc, cases) == Some(Plus(acc, Tally(cases)))
    ensures CasesFrom(acc, cases).Some? ==> Total(Tally(cases)) == |cases|
    decreases |cases|
  {
    if cases != [] {
      var rest := cases[1..];
      var b := Bucket(cases[0].1);
      if b.Some? {
        TallyUnfold(cases, b.value);
        CasesFromTally(Plus(acc, One(b.value)), rest);
        PlusAssoc(acc, One(b.value), Tally(rest));
        assert CasesFrom(acc, cases) == CasesFrom(Plus(acc, One(b.value)), rest);
        if CasesFrom(acc, cases).Some? {
          assert forall i :: 1 <= i < |cases| ==> cases[i] == rest[i - 1];
        } else {
          var k :| 0 <= k < |rest| && !Countable(rest[k].1);
          assert cases[k + 1] == rest[k];
        }
      } else {
        assert !Countable(cases[0].1);
      }
    }
  }

  /** The tally of a non-empty list is the first case's count plus the
      tally of the rest. */
  lemma TallyUnfold(cases: Entries, o: Validate.Outcome)
    requires cases != [] && Bucket(cases[0].1) == Some(o)
    ensures Tally(cases) == Plus(One(o), Tally(cases[1..]))
  {
    var t, u, p := Tally(cases), Tally(cases[1..]), One(o);
    assert t.success == p.success + u.success;
    assert t.warning == p.warning + u.warning;
    assert t.error == p.error + u.error;
    PlusFields(p, u, t);
  }

  /** Counts are equal to a sum when each counter is. */
  lemma PlusFields(a: Counts, b: Counts, c: Counts)
    requires c.success == a.success + b.success && c.warning == a.warning + b.warning && c.error == a.error + b.error
    ensures c == Plus(a, b)
  {
  }

  lemma PlusAssoc(a: Counts, b: Counts, c: Counts)
    ensures Plus(Plus(a, b), c) == Plus(a, Plus(b, c))
  {
    PlusFields(a, Plus(b, c), Plus(Plus(a, b), c));
  }

  lemma GroupFromTally(acc: Counts, grp: Value)
    ensures GroupFrom(acc, grp).Some? <==> GroupCountable(grp)
    ensures GroupFrom(acc, grp).Some? ==> GroupFrom(acc, grp) == Some(Plus(acc, GroupTally(grp.entries)))
    ensures GroupFrom(acc, grp).Some? ==>
      Total(GroupTally(grp.entries)) == |CasesIn(grp.entries, "valid")| + |CasesIn(grp.entries, "invalid")|
  {
    if grp.Map? {
      var v, w := CasesIn(grp.entries, "valid"), CasesIn(grp.entries, "invalid");
      CasesFromTally(acc, v);
      var a := CasesFrom(acc, v);
      assert GroupFrom(acc, grp) == if a.None? then None else CasesFrom(a.value, w);
      assert GroupCountable(grp) <==> AllCountable(v) && AllCountable(w);
      if a.Some? {
        CasesFromTally(a.value, w);
        PlusAssoc(acc, Tally(v), Tally(w));
      }
    }
  }

  /** `_compute_counts` over all of `tests`: it fails exactly when a group
      is not a mapping or a case is a truthy non-mapping; otherwise every
      case lands in exactly one counter, according to its `result`. */
  lemma {:induction false} TestsFromTally(acc: Counts, tests: Entries)
    ensures TestsFrom(acc, tests).Some? <==> forall i :: 0 <= i < |tests| ==> GroupCountable(tests[i].1)
    ensures TestsFrom(acc, tests).Some? ==>
      && TestsFrom(acc, tests) == Some(Plus(acc, TestsTally(tests)))
      && Total(TestsTally(tests)) == NumCases(tests)
    decreases |tests|
  {
    if tests != [] {
      var rest := tests[1..];
      assert forall i :: 0 <= i < |rest| ==> rest[i] == tests[i + 1];
      GroupFromTally(acc, tests[0].1);
      var g := GroupFrom(acc, tests[0].1);
      if g.Some? {
        TestsFromTally(g.value, rest);
        if TestsFrom(g.value, rest).Some? {
          PlusAssoc(acc, GroupTally(tests[0].1.entries), TestsTally(rest));
        }
      }
    }
  }

  /** Groups whose `valid` and `invalid` are missing or not mappings count
      nothing. */
  lemma EmptyGroupCountsNothing(acc: Counts, grp: Entries)
    requires !GetOr(grp, "valid", Null).Map? && !GetOr(grp, "invalid", Null).Map?
    ensures GroupFrom(acc, Map(grp)) == Some(acc)
  {
  }

  /** The loop of `_compute_counts` over the cases of one group. */
  method CountCases(acc0: Counts, cases: Entries) returns (r: Option<Counts>)
    ensures r == CasesFrom(acc0, cases)
  {
    var acc := acc0;
    var i := 0;
    while i < |cases|
      invariant 0 <= i <= |cases|
      invariant CasesFrom(acc0, cases) == CasesFrom(acc, cases[i..])
    {
      assert cases[i..][1..] == cases[i + 1..];
      var c := Or(cases[i].1, Map([]));
      if !c.Map? {
        return None;
      }
      var res := GetOr(c.entries, "result", Str("SUCCESS"));
      var next: Counts;
      if res == Str("ERROR") {
        next := acc.(error := acc.error + 1);
        PlusFields(acc, One(Validate.ERROR), next);
      } else if res == Str("WARNING") {
        next := acc.(warning := acc.warning + 1);
        PlusFields(acc, One(Validate.WARNING), next);
      } else {
        next := acc.(success := acc.success + 1);
        PlusFields(acc, One(Validate.SUCCESS), next);
      }
      acc := next;
      i := i + 1;
    }
    assert cases[i..] == [];
    return Some(acc);
  }

  /** `_compute_counts`. */
  method ComputeCounts(doc: Entries) returns (r: Option<Counts>)
    ensures r == CountsOf(doc)
  {
    var t := Or(GetOr(doc, "tests", Null), Map([]));
    if !t.Map? {
      return None;
    }
    var tests := t.entries;
    var acc := Zero;
    var i := 0;
    while i < |tests|
      invariant 0 <= i <= |tests|
      invariant CountsOf(doc) == TestsFrom(acc, tests[i..])
    {
      assert tests[i..][1..] == tests[i + 1..];
      var grp := tests[i].1;
      if !grp.Map? {
        return None;
      }
      var a := CountCases(acc, CasesIn(grp.entries, "valid"));
      if a.None? {
        return None;
      }
      var b := CountCases(a.value, CasesIn(grp.entries, "invalid"));
      if b.None? {
        return None;
      }
      acc := b.value;
      i := i + 1;
    }
    assert tests[i..] == [];
    return Some(acc);
  }

  // ---------------------------------------------------------------------
  // build_context

  /** `ReportInput`. */
  datatype ReportInput = ReportInput(path: string, doc: Entries, counts: Counts, rc: int)

  /** The `totals` of the context. */
  datatype Totals = Totals(success: int, warning: int, error: int, specs: int)

  /** The context a template is rendered with.  `toolVersion` is what
      `get_version` reports, which depends on package metadata and is
      given. */
  datatype Context = Context(toolVersion: string, specSupported: string, specRecommended: string,
                             inputs: seq<ReportInput>, totals: Totals)

  /** The sum of the inputs' counts. */
  function SumCounts(ins: seq<ReportInput>): Counts
    decreases |ins|
  {
    if ins == [] then Zero else Plus(ins[0].counts, SumCounts(ins[1..]))
  }

  /** The totals of a list of inputs. */
  function TotalsOf(ins: seq<ReportInput>): (t: Totals)
    ensures t.specs == |ins|
  {
    var s := SumCounts(ins);
    Totals(s.success, s.warning, s.error, |ins|)
  }

  lemma {:induction false} SumCountsAppend(a: seq<ReportInput>, b: seq<ReportInput>)
    ensures SumCounts(a + b) == Plus(SumCounts(a), SumCounts(b))
    decreases |a|
  {
    if a == [] {
      assert a + b == b;
    } else {
      assert (a + b)[1..] == a[1..] + b;
      SumCountsAppend(a[1..], b);
    }
  }

  /** The totals of two lists of inputs together are the key-wise sums of
      their totals. */
  lemma TotalsAppend(a: seq<ReportInput>, b: seq<ReportInput>)
    ensures var ta, tb, t := TotalsOf(a), TotalsOf(b), TotalsOf(a + b);
      t == Totals(ta.success + tb.success, ta.warning + tb.warning, ta.error + tb.error, ta.specs + tb.specs)
  {
    SumCountsAppend(a, b);
  }

  /** A single input's totals are its own counts. */
  lemma TotalsOne(ri: ReportInput)
    ensures TotalsOf([ri]) == Totals(ri.counts.success, ri.counts.warning, ri.counts.error, 1)
  {
    assert [ri][1..] == [];
    assert SumCounts([ri]) == Plus(ri.counts, SumCounts([]));
  }

  function FoldTotals(t: Totals, ins: seq<ReportInput>): Totals
    decreases |ins|
  {
    if ins == [] then t
    else FoldTotals(Totals(t.success + ins[0].counts.success, t.warning + ins[0].counts.warning,
                           t.error + ins[0].counts.error, t.specs), ins[1..])
  }

  lemma {:induction false} FoldTotalsSum(t: Totals, ins: seq<ReportInput>)
    ensures var s := SumCounts(ins);
      FoldTotals(t, ins) == Totals(t.success + s.success, t.warning + s.warning, t.error + s.error, t.specs)
    decreases |ins|
  {
    if ins != [] {
      FoldTotalsSum(Totals(t.success + ins[0].counts.success, t.warning + ins[0].counts.warning,
                           t.error + ins[0].counts.error, t.specs), ins[1..]);
    }
  }

  /** `build_context`: the inputs as they are, the supported range and the
      recommended minor of the compatibility manifest, and the totals. */
  method BuildContext(ins: seq<ReportInput>, toolVersion: string, compat: Version.Compat) returns (ctx: Context)
    ensures ctx.inputs == ins
    ensures ctx.totals == TotalsOf(ins)
    ensures ctx.specSupported == Version.SupportedSpecRangeStr(compat)
    ensures ctx.specRecommended == Version.RecommendedMinorStr(compat)
    ensures ctx.toolVersion == toolVersion
  {
    var totals := Totals(0, 0, 0, |ins|);
    var i := 0;
    while i < |ins|
      invariant 0 <= i <= |ins|
      invariant FoldTotals(Totals(0, 0, 0, |ins|), ins) == FoldTotals(totals, ins[i..])
    {
      assert ins[i..][1..] == ins[i + 1..];
      totals := Totals(totals.success + ins[i].counts.success, totals.warning + ins[i].counts.warning,
                       totals.error + ins[i].counts.error, totals.specs);
      i := i + 1;
    }
    assert ins[i..] == [];
    FoldTotalsSum(Totals(0, 0, 0, |ins|), ins);
    ctx := Context(toolVersion, Version.SupportedSpecRangeStr(compat), Version.RecommendedMinorStr(compat), ins, totals);
  }

  /** The context `build_context` makes. */
  function ContextOf(ins: seq<ReportInput>, toolVersion: string, compat: Version.Compat): Context {
    Context(toolVersion, Version.SupportedSpecRangeStr(compat), Version.RecommendedMinorStr(compat), ins, TotalsOf(ins))
  }

  // ---------------------------------------------------------------------
  // run_report_per_spec

  /** What `validate_doc` makes of a document: the output tests and the
      exit code, `None` when an exception escapes. */
  type DocValidator = (Entries, Validate.Env) -> Option<(Entries, int)>

  /** The modelled `validate_doc`. */
  function ValidateDocFn(): DocValidator {
    (doc, env) => Validate.ValidateDocSpec(doc, env)
  }

  /** A validator whose exit codes are 0, 1 or 2. */
  ghost predicate RcBounded(vd: DocValidator) {
    forall doc, env :: vd(doc, env).Some? ==> 0 <= vd(doc, env).value.1 <= 2
  }

  /** The modelled `validate_doc` never gives an exit code outside 0..2. */
  lemma ValidateDocFnRc()
    ensures RcBounded(ValidateDocFn())
  {
    forall doc, env | ValidateDocFn()(doc, env).Some? ensures 0 <= ValidateDocFn()(doc, env).value.1 <= 2 {
      Validate.ValidateDocRc(doc, env);
    }
  }

  /** One test spec: its path, its loaded content (`None` when reading it
      raised) and the schema environment of its directory. */
  datatype SpecSource = SpecSource(path: string, loaded: Option<Value>, env: Validate.Env)

  /** What became of one spec: it failed the gate (exit code 2, no
      output), an exception escaped, or it became a report input. */
  datatype SpecResult = Hard | Crashed | Counted(input: ReportInput)

  /** The output document of one spec: the recommended version and the
      output tests. */
  function ReportDoc(tests: Entries, compat: Version.Compat): Entries {
    [("version", Str(Version.RecommendedTestspecVersion(compat))), ("tests", Map(tests))]
  }

  /** One spec of the first loop of `run_report_per_spec`, evaluated with
      `in_place=False` at the requested output level. */
  function SpecStep(src: SpecSource, schemaValid: Value -> bool, parseVersion: Value -> Option<Version.SemVer>,
                    compat: Version.Compat, level: string, vd: DocValidator): (r: SpecResult)
    ensures r.Hard? <==> !Validate.Admitted(src.loaded, schemaValid, parseVersion, compat)
    ensures r.Counted? ==> r.input.path == src.path
  {
    if !Validate.Admitted(src.loaded, schemaValid, parseVersion, compat) then Hard
    else
      var raw := Or(src.loaded.value, Map([]));
      if !raw.Map? then Crashed
      else
        match vd(raw.entries, src.env.(level := level, inPlace := false))
        case None => Crashed
        case Some((tests, rc)) =>
          var doc := ReportDoc(tests, compat);
          match CountsOf(doc)
          case None => Crashed
          case Some(counts) => Counted(ReportInput(src.path, doc, counts, rc))
  }

  /** The first loop: whether some spec failed the gate, and the report
      inputs in spec order; `None` when an exception escapes. */
  function InputsFrom(hard: bool, ins: seq<ReportInput>, specs: seq<SpecSource>, schemaValid: Value -> bool,
                      parseVersion: Value -> Option<Version.SemVer>, compat: Version.Compat, level: string, vd: DocValidator)
    : Option<(bool, seq<ReportInput>)>
    decreases |specs|
  {
    if specs == [] then Some((hard, ins))
    else
      match SpecStep(specs[0], schemaValid, parseVersion, compat, level, vd)
      case Hard => InputsFrom(true, ins, specs[1..], schemaValid, parseVersion, compat, level, vd)
      case Crashed => None
      case Counted(ri) => InputsFrom(hard, ins + [ri], specs[1..], schemaValid, parseVersion, compat, level, vd)
  }

  /** `max` over the inputs' exit codes, from 0. */
  function MaxRc(rc: int, ins: seq<ReportInput>): int
    decreases |ins|
  {
    if ins == [] then rc else MaxRc(if ins[0].rc > rc then ins[0].rc else rc, ins[1..])
  }

  /** The second loop: each input is rendered on its own, under its path. */
  function Outputs(ins: seq<ReportInput>, toolVersion: string, compat: Version.Compat): (outs: seq<(string, Context)>)
    ensures |outs| == |ins|
    decreases |ins|
  {
    if ins == [] then [] else [(ins[0].path, ContextOf([ins[0]], toolVersion, compat))] + Outputs(ins[1..], toolVersion, compat)
  }

  lemma {:induction false} OutputsIndex(ins: seq<ReportInput>, toolVersion: string, compat: Version.Compat)
    ensures forall i :: 0 <= i < |ins| ==> Outputs(ins, toolVersion, compat)[i] == (ins[i].path, ContextOf([ins[i]], toolVersion, compat))
    decreases |ins|
  {
    if ins != [] {
      OutputsIndex(ins[1..], toolVersion, compat);
      assert forall i :: 1 <= i < |ins| ==> ins[1..][i - 1] == ins[i];
    }
  }

  /** `run_report_per_spec`: one context per report input, in order, and
      the exit code, 2 when some spec failed the gate and otherwise the
      largest exit code of the inputs.  `templateFound` is whether the
      template id resolves; rendering itself is not modelled. */
  function ReportSpec(specs: seq<SpecSource>, schemaValid: Value -> bool, parseVersion: Value -> Option<Version.SemVer>,
                      compat: Version.Compat, level: string, templateFound: bool, toolVersion: string, vd: DocValidator)
    : Option<(seq<(string, Context)>, int)>
  {
    match InputsFrom(false, [], specs, schemaValid, parseVersion, compat, level, vd)
    case None => None
    case Some((hard, ins)) =>
      if !templateFound then None
      else
        Some((Outputs(ins, toolVersion, compat), if hard then 2 else MaxRc(0, ins)))
  }

  // Properties of a report run

  /** The paths of the specs that pass the gate, in order. */
  function AdmittedPaths(specs: seq<SpecSource>, schemaValid: Value -> bool,
                         parseVersion: Value -> Option<Version.SemVer>, compat: Version.Compat): seq<string>
    decreases |specs|
  {
    if specs == [] then []
    else (if Validate.Admitted(specs[0].loaded, schemaValid, parseVersion, compat) then [specs[0].path] else [])
         + AdmittedPaths(specs[1..], schemaValid, parseVersion, compat)
  }

  function Paths(ins: seq<ReportInput>): seq<string>
    decreases |ins|
  {
    if ins == [] then [] else [ins[0].path] + Paths(ins[1..])
  }

  lemma {:induction false} PathsAppend(a: seq<ReportInput>, b: seq<ReportInput>)
    ensures Paths(a + b) == Paths(a) + Paths(b)
    decreases |a|
  {
    if a == [] {
      assert a + b == b;
    } else {
      assert (a + b)[1..] == a[1..] + b;
      PathsAppend(a[1..], b);
    }
  }

  predicate AnyHard(specs: seq<SpecSource>, schemaValid: Value -> bool,
                    parseVersion: Value -> Option<Version.SemVer>, compat: Version.Compat) {
    exists i :: 0 <= i < |specs| && !Validate.Admitted(specs[i].loaded, schemaValid, parseVersion, compat)
  }

  /** The first loop keeps exactly the specs that pass the gate, in order,
      records a gate failure exactly when one happens, and every input's
      exit code is between 0 and 2. */
  lemma {:induction false} InputsFromShape(hard: bool, ins: seq<ReportInput>, specs: seq<SpecSource>, schemaValid: Value -> bool,
                                           parseVersion: Value -> Option<Version.SemVer>, compat: Version.Compat, level: string, vd: DocValidator)
    requires RcBounded(vd)
    requires forall j :: 0 <= j < |ins| ==> 0 <= ins[j].rc <= 2
    ensures var r := InputsFrom(hard, ins, specs, schemaValid, parseVersion, compat, level, vd);
      r.Some? ==>
        && Paths(r.value.1) == Paths(ins) + AdmittedPaths(specs, schemaValid, parseVersion, compat)
        && (r.value.0 <==> hard || AnyHard(specs, schemaValid, parseVersion, compat))
        && (forall j :: 0 <= j < |r.value.1| ==> 0 <= r.value.1[j].rc <= 2)
    decreases |specs|
  {
    if specs != [] {
      var rest := specs[1..];
      AnyHardCons(specs, schemaValid, parseVersion, compat);
      var st := SpecStep(specs[0], schemaValid, parseVersion, compat, level, vd);
      var restPaths := AdmittedPaths(rest, schemaValid, parseVersion, compat);
      if st.Hard? {
        assert AdmittedPaths(specs, schemaValid, parseVersion, compat) == restPaths;
        InputsFromShape(true, ins, rest, schemaValid, parseVersion, compat, level, vd);
      } else if st.Counted? {
        assert AdmittedPaths(specs, schemaValid, parseVersion, compat) == [specs[0].path] + restPaths;
        SpecStepRc(specs[0], schemaValid, parseVersion, compat, level, vd);
        RcAppend(ins, st.input);
        InputsFromShape(hard, ins + [st.input], rest, schemaValid, parseVersion, compat, level, vd);
        CountedPaths(ins, st.input, restPaths);
      }
    }
  }

  lemma CountedPaths(ins: seq<ReportInput>, ri: ReportInput, restPaths: seq<string>)
    ensures Paths(ins + [ri]) + restPaths == Paths(ins) + ([ri.path] + restPaths)
  {
    PathsAppend(ins, [ri]);
    assert Paths([ri]) == [ri.path];
  }

  /** A gate failure among the specs is one at the first spec or among the rest. */
  lemma AnyHardCons(specs: seq<SpecSource>, schemaValid: Value -> bool,
                    parseVersion: Value -> Option<Version.SemVer>, compat: Version.Compat)
    requires specs != []
    ensures AnyHard(specs, schemaValid, parseVersion, compat)
        <==> !Validate.Admitted(specs[0].loaded, schemaValid, parseVersion, compat) || AnyHard(specs[1..], schemaValid, parseVersion, compat)
  {
    var rest := specs[1..];
    if AnyHard(specs, schemaValid, parseVersion, compat) {
      var i :| 0 <= i < |specs| && !Validate.Admitted(specs[i].loaded, schemaValid, parseVersion, compat);
      if i > 0 { assert rest[i - 1] == specs[i]; }
    }
    if AnyHard(rest, schemaValid, parseVersion, compat) {
      var i :| 0 <= i < |rest| && !Validate.Admitted(rest[i].loaded, schemaValid, parseVersion, compat);
      assert specs[i + 1] == rest[i];
    }
  }

  /** A counted spec's exit code is the validator's, so it lies in 0..2. */
  lemma SpecStepRc(src: SpecSource, schemaValid: Value -> bool, parseVersion: Value -> Option<Version.SemVer>,
                   compat: Version.Compat, level: string, vd: DocValidator)
    requires RcBounded(vd)
    ensures var r := SpecStep(src, schemaValid, parseVersion, compat, level, vd);
      r.Counted? ==> 0 <= r.input.rc <= 2
  {
    if Validate.Admitted(src.loaded, schemaValid, parseVersion, compat) {
      var raw := Or(src.loaded.value, Map([]));
      if raw.Map? {
        var env := src.env.(level := level, inPlace := false);
        assert vd(raw.entries, env).Some? ==> 0 <= vd(raw.entries, env).value.1 <= 2;
      }
    }
  }

  lemma RcAppend(ins: seq<ReportInput>, ri: ReportInput)
    requires forall j :: 0 <= j < |ins| ==> 0 <= ins[j].rc <= 2
    requires 0 <= ri.rc <= 2
    ensures forall j :: 0 <= j < |ins + [ri]| ==> 0 <= (ins + [ri])[j].rc <= 2
  {
  }

  lemma {:induction false} MaxRcBounds(rc: int, ins: seq<ReportInput>)
    requires 0 <= rc <= 2
    requires forall j :: 0 <= j < |ins| ==> 0 <= ins[j].rc <= 2
    ensures rc <= MaxRc(rc, ins) <= 2
    ensures forall j :: 0 <= j < |ins| ==> ins[j].rc <= MaxRc(rc, ins)
    ensures MaxRc(rc, ins) == rc || exists j :: 0 <= j < |ins| && ins[j].rc == MaxRc(rc, ins)
    decreases |ins|
  {
    if ins != [] {
      var rest := ins[1..];
      assert forall j :: 0 <= j < |rest| ==> rest[j] == ins[j + 1];
      var next := if ins[0].rc > rc then ins[0].rc else rc;
      MaxRcBounds(next, rest);
      if MaxRc(next, rest) != next {
        var j :| 0 <= j < |rest| && rest[j].rc == MaxRc(next, rest);
        assert ins[j + 1].rc == MaxRc(rc, ins);
      }
    }
  }

  /** The exit code of a report run: 2 when some spec failed the gate,
      otherwise the largest exit code of the report inputs (0 when there
      are none); one output per spec that passed the gate, in order. */
  lemma ReportRc(specs: seq<SpecSource>, schemaValid: Value -> bool, parseVersion: Value -> Option<Version.SemVer>,
                 compat: Version.Compat, level: string, templateFound: bool, toolVersion: string, vd: DocValidator)
    requires RcBounded(vd)
    ensures var r := ReportSpec(specs, schemaValid, parseVersion, compat, level, templateFound, toolVersion, vd);
      r.Some? ==>
        && 0 <= r.value.1 <= 2
        && (AnyHard(specs, schemaValid, parseVersion, compat) ==> r.value.1 == 2)
        && (|r.value.0| == |AdmittedPaths(specs, schemaValid, parseVersion, compat)|)
        && (forall i :: 0 <= i < |r.value.0| ==> r.value.0[i].0 == AdmittedPaths(specs, schemaValid, parseVersion, compat)[i])
        && (!AnyHard(specs, schemaValid, parseVersion, compat) ==>
              forall i :: 0 <= i < |r.value.0| ==> |r.value.0[i].1.inputs| == 1 && r.value.0[i].1.inputs[0].rc <= r.value.1)
        && (!AnyHard(specs, schemaValid, parseVersion, compat) ==>
              r.value.1 == 0 ||
              exists i :: 0 <= i < |r.value.0| && |r.value.0[i].1.inputs| == 1 && r.value.0[i].1.inputs[0].rc == r.value.1)
  {
    var x := InputsFrom(false, [], specs, schemaValid, parseVersion, compat, level, vd);
    InputsFromShape(false, [], specs, schemaValid, parseVersion, compat, level, vd);
    if x.Some? && templateFound {
      var hard, ins := x.value.0, x.value.1;
      var outs := Outputs(ins, toolVersion, compat);
      var adm := AdmittedPaths(specs, schemaValid, parseVersion, compat);
      assert Paths([]) + adm == adm;
      assert Paths(ins) == adm;
      MaxRcBounds(0, ins);
      PathsIndex(ins);
      OutputsIndex(ins, toolVersion, compat);
      assert ReportSpec(specs, schemaValid, parseVersion, compat, level, templateFound, toolVersion, vd)
          == Some((outs, if hard then 2 else MaxRc(0, ins)));
      forall i | 0 <= i < |outs|
        ensures outs[i].0 == adm[i] && outs[i].1.inputs[0] == ins[i]
      {
      }
      if MaxRc(0, ins) != 0 {
        var j :| 0 <= j < |ins| && ins[j].rc == MaxRc(0, ins);
        assert outs[j].1.inputs[0] == ins[j];
      }
    }
  }

  lemma {:induction false} PathsIndex(ins: seq<ReportInput>)
    ensures |Paths(ins)| == |ins|
    ensures forall i :: 0 <= i < |ins| ==> Paths(ins)[i] == ins[i].path
    decreases |ins|
  {
    if ins != [] {
      PathsIndex(ins[1..]);
      assert forall i :: 1 <= i < |ins| ==> ins[1..][i - 1] == ins[i];
    }
  }

  /** A report over specs that all fail the gate has no output and exit
      code 2. */
  lemma AllRejected(specs: seq<SpecSource>, schemaValid: Value -> bool, parseVersion: Value -> Option<Version.SemVer>,
                    compat: Version.Compat, level: string, toolVersion: string, vd: DocValidator)
    requires specs != []
    requires forall i :: 0 <= i < |specs| ==> !Validate.Admitted(specs[i].loaded, schemaValid, parseVersion, compat)
    ensures ReportSpec(specs, schemaValid, parseVersion, compat, level, true, toolVersion, vd) == Some(([], 2))
  {
    AllRejectedInputs(false, specs, schemaValid, parseVersion, compat, level, vd);
  }

  lemma {:induction false} AllRejectedInputs(hard: bool, specs: seq<SpecSource>, schemaValid: Value -> bool,
                                             parseVersion: Value -> Option<Version.SemVer>, compat: Version.Compat, level: string, vd: DocValidator)
    requires forall i :: 0 <= i < |specs| ==> !Validate.Admitted(specs[i].loaded, schemaValid, parseVersion, compat)
    ensures InputsFrom(hard, [], specs, schemaValid, parseVersion, compat, level, vd) == Some((hard || specs != [], []))
    decreases |specs|
  {
    if specs != [] {
      assert forall i :: 0 <= i < |specs[1..]| ==> specs[1..][i] == specs[i + 1];
      AllRejectedInputs(true, specs[1..], schemaValid, parseVersion, compat, level, vd);
    }
  }

  /** The same properties for the modelled `validate_doc`. */
  lemma ReportRcModelled(specs: seq<SpecSource>, schemaValid: Value -> bool, parseVersion: Value -> Option<Version.SemVer>,
                         compat: Version.Compat, level: string, templateFound: bool, toolVersion: string)
    ensures var r := ReportSpec(specs, schemaValid, parseVersion, compat, level, templateFound, toolVersion, ValidateDocFn());
      r.Some? ==>
        && 0 <= r.value.1 <= 2
        && (AnyHard(specs, schemaValid, parseVersion, compat) ==> r.value.1 == 2)
        && (|r.value.0| == |AdmittedPaths(specs, schemaValid, parseVersion, compat)|)
        && (forall i :: 0 <= i < |r.value.0| ==> r.value.0[i].0 == AdmittedPaths(specs, schemaValid, parseVersion, compat)[i])
        && (!AnyHard(specs, schemaValid, parseVersion, compat) ==>
              forall i :: 0 <= i < |r.value.0| ==> |r.value.0[i].1.inputs| == 1 && r.value.0[i].1.inputs[0].rc <= r.value.1)
        && (!AnyHard(specs, schemaValid, parseVersion, compat) ==>
              r.value.1 == 0 ||
              exists i :: 0 <= i < |r.value.0| && |r.value.0[i].1.inputs| == 1 && r.value.0[i].1.inputs[0].rc == r.value.1)
  {
    ValidateDocFnRc();
    ReportRc(specs, schemaValid, parseVersion, compat, level, templateFound, toolVersion, ValidateDocFn());
  }

  /** The body of the first loop of `run_report_per_spec` for one spec. */
  method ProcessSpec(src: SpecSource, schemaValid: Value -> bool, parseVersion: Value -> Option<Version.SemVer>,
                     compat: Version.Compat, level: string) returns (step: SpecResult)
    ensures step == SpecStep(src, schemaValid, parseVersion, compat, level, ValidateDocFn())
  {
    if !Validate.Admitted(src.loaded, schemaValid, parseVersion, compat) {
      return Hard;
    }
    var raw := Or(src.loaded.value, Map([]));
    if !raw.Map? {
      return Crashed;
    }
    var v := Validate.ValidateDoc(raw.entries, src.env.(level := level, inPlace := false));
    if v.None? {
      return Crashed;
    }
    var doc := ReportDoc(v.value.0, compat);
    var counts := ComputeCounts(doc);
    if counts.None? {
      return Crashed;
    }
    return Counted(ReportInput(src.path, doc, counts.value, v.value.1));
  }

  /** The first loop of `run_report_per_spec`. */
  method CollectInputs(specs: seq<SpecSource>, schemaValid: Value -> bool, parseVersion: Value -> Option<Version.SemVer>,
                       compat: Version.Compat, level: string) returns (r: Option<(bool, seq<ReportInput>)>)
    ensures r == InputsFrom(false, [], specs, schemaValid, parseVersion, compat, level, ValidateDocFn())
  {
    var hardRc := 0;
    var inputs: seq<ReportInput> := [];
    var i := 0;
    while i < |specs|
      invariant 0 <= i <= |specs|
      invariant hardRc == 0 || hardRc == 2
      invariant InputsFrom(false, [], specs, schemaValid, parseVersion, compat, level, ValidateDocFn())
             == InputsFrom(hardRc == 2, inputs, specs[i..], schemaValid, parseVersion, compat, level, ValidateDocFn())
    {
      assert specs[i..][1..] == specs[i + 1..];
      var step := ProcessSpec(specs[i], schemaValid, parseVersion, compat, level);
      if step.Hard? {
        hardRc := 2;
      } else if step.Crashed? {
        return None;
      } else {
        inputs := inputs + [step.input];
      }
      i := i + 1;
    }
    assert specs[i..] == [];
    return Some((hardRc == 2, inputs));
  }

  /** `run_report_per_spec`. */
  method RunReportPerSpec(specs: seq<SpecSource>, schemaValid: Value -> bool, parseVersion: Value -> Option<Version.SemVer>,
                          compat: Version.Compat, level: string, templateFound: bool, toolVersion: string)
    returns (r: Option<(seq<(string, Context)>, int)>)
    ensures r == ReportSpec(specs, schemaValid, parseVersion, compat, level, templateFound, toolVersion, ValidateDocFn())
  {
    var collected := CollectInputs(specs, schemaValid, parseVersion, compat, level);
    if collected.None? || !templateFound {
      return None;
    }
    var hard := collected.value.0;
    var inputs := collected.value.1;
    var outputs: seq<(string, Context)> := [];
    var rcCases := 0;
    var j := 0;
    assert inputs[0..] == inputs;
    while j < |inputs|
      invariant 0 <= j <= |inputs|
      invariant MaxRc(0, inputs) == MaxRc(rcCases, inputs[j..])
      invariant Outputs(inputs, toolVersion, compat) == outputs + Outputs(inputs[j..], toolVersion, compat)
    {
      assert inputs[j..][1..] == inputs[j + 1..];
      var ctx := BuildContext([inputs[j]], toolVersion, compat);
      assert ctx == ContextOf([inputs[j]], toolVersion, compat);
      assert Outputs(inputs[j..], toolVersion, compat) == [(inputs[j].path, ctx)] + Outputs(inputs[j + 1..], toolVersion, compat);
      outputs := outputs + [(inputs[j].path, ctx)];
      if inputs[j].rc > rcCases {
        rcCases := inputs[j].rc;
      }
      j := j + 1;
    }
    assert inputs[j..] == [];
    assert outputs + [] == outputs;
    r := Some((outputs, if hard then 2 else rcCases));
  }
}
