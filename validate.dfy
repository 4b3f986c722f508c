/** The case classification engine of `teds_core/validate.py`.  Each case of
    a testspec is validated against its schema by two validators, a strict
    one that enforces `format` and a lenient one that ignores it, and is
    classified SUCCESS, WARNING or ERROR against its expectation (`valid`
    or `invalid`); the classified cases are filtered by output level and
    folded into an exit code.

    The two validators and the YAML loader are oracles: a validator maps an
    instance to the errors it reports (or to an exception other than a
    validation error), the loader maps a text to a value (or fails). */
module Validate {
  import opened Wrappers
  import opened Text
  import opened Json
  import opened Refs
  import Version

  // ---------------------------------------------------------------------
  // Oracles

  /** One error of `iter_errors`: the failing keyword (`e.validator`), the
      message, and the `format` of the failing sub-schema (meaningful for
      `format` errors only). */
  datatype VError = VError(keyword: string, message: string, format: string)

  /** What a validator makes of an instance: the errors `iter_errors`
      yields, in order, and whether the iteration then raises an exception
      that is not a validation error (an unresolvable `$ref`, say).  The
      code consumes the iteration in three ways, which see this
      differently: `validate` raises the first error, and the exception
      only when no error comes before it; `list(...)` raises whenever the
      iteration does; `any(...)` stops at the first error. */
  datatype Run = Run(errors: seq<VError>, raisesAfter: bool)

  type Validator = Value -> Run

  /** `yaml_loader.load`: `None` when loading raises. */
  type Loader = string -> Option<Value>

  /** `validate` returns normally. */
  predicate Accepts(v: Validator, instance: Value) {
    v(instance).errors == [] && !v(instance).raisesAfter
  }

  /** `validate` raises a validation error. */
  predicate Rejects(v: Validator, instance: Value) {
    v(instance).errors != []
  }

  /** `validate`, and `any(True for _ in iter_errors(...))`, raise an
      exception that is not a validation error. */
  predicate Raises(v: Validator, instance: Value) {
    v(instance).errors == [] && v(instance).raisesAfter
  }

  /** `list(iter_errors(...))` raises. */
  predicate ListRaises(v: Validator, instance: Value) {
    v(instance).raisesAfter
  }

  // ---------------------------------------------------------------------
  // Results and output levels

  datatype Outcome = SUCCESS | WARNING | ERROR

  /** The `result` string of a case. */
  function Name(o: Outcome): string {
    match o
    case SUCCESS => "SUCCESS"
    case WARNING => "WARNING"
    case ERROR => "ERROR"
  }

  lemma NameInjective(a: Outcome, b: Outcome)
    ensures Name(a) == Name(b) ==> a == b
  {
    assert Name(SUCCESS)[0] == 'S' && Name(WARNING)[0] == 'W' && Name(ERROR)[0] == 'E';
  }

  /** `_visible`. */
  predicate Visible(level: string, result: string) {
    || level == "all"
    || (level == "warning" && (result == "WARNING" || result == "ERROR"))
    || (level == "error" && result == "ERROR")
  }

  /** `all` shows every case, `warning` exactly the warnings and errors,
      `error` exactly the errors; a stricter level shows fewer cases. */
  lemma VisibleByLevel(o: Outcome)
    ensures Visible("all", Name(o))
    ensures Visible("warning", Name(o)) <==> o != SUCCESS
    ensures Visible("error", Name(o)) <==> o == ERROR
    ensures Visible("error", Name(o)) ==> Visible("warning", Name(o))
  {
    NameInjective(o, SUCCESS);
    NameInjective(o, WARNING);
    NameInjective(o, ERROR);
    assert "all" != "warning" && "all" != "error" && "warning" != "error" by {
      assert |"all"| == 3 && |"error"| == 5 && |"warning"| == 7;
    }
  }

  // ---------------------------------------------------------------------
  // `_iter_cases`

  /** What `_iter_cases` yields for one case: payload (`Null` when absent),
      description, the `parse_payload` flag, the case key, the
      `from_examples` flag, and the user warnings. */
  datatype RawCase = RawCase(payload: Value, description: Value, parseFlag: bool, key: string,
                             fromExamples: bool, warnings: seq<string>)

  /** The string entries of a `warnings` list, in order; everything else
      (generated warnings included) is dropped. */
  function StringWarnings(ws: seq<Value>): (r: seq<string>)
    ensures |r| <= |ws|
    ensures forall s :: s in r <==> Str(s) in ws
  {
    if ws == [] then []
    else
      var init := StringWarnings(ws[..|ws| - 1]);
      assert ws == ws[..|ws| - 1] + [ws[|ws| - 1]];
      match ws[|ws| - 1]
      case Str(s) => init + [s]
      case _ => init
  }

  /** A list made of strings only keeps all of them. */
  lemma {:induction false} StringWarningsAllStrings(ws: seq<Value>, ss: seq<string>)
    requires |ws| == |ss|
    requires forall i :: 0 <= i < |ws| ==> ws[i] == Str(ss[i])
    ensures StringWarnings(ws) == ss
  {
    if ws != [] {
      var n := |ws| - 1;
      StringWarningsAllStrings(ws[..n], ss[..n]);
      assert ws[n] == Str(ss[n]);
      assert ss == ss[..n] + [ss[n]];
    }
  }

  /** The loop over `it["warnings"]`. */
  method CollectStringWarnings(ws: seq<Value>) returns (out: seq<string>)
    ensures out == StringWarnings(ws)
  {
    out := [];
    var i := 0;
    while i < |ws|
      invariant 0 <= i <= |ws|
      invariant out == StringWarnings(ws[..i])
    {
      assert ws[..i + 1][..i] == ws[..i];
      if ws[i].Str? {
        out := out + [ws[i].s];
      }
      i := i + 1;
    }
    assert ws[..i] == ws;
  }

  function UserWarnings(it: Entries): seq<string> {
    match GetOr(it, "warnings", Null)
    case List(ws) => StringWarnings(ws)
    case _ => []
  }

  /** One case: a mapping gives its fields with their defaults, anything
      else gives no payload, no description, no flags and no warnings. */
  function CaseOf(k: string, it: Value): (c: RawCase)
    ensures c.key == k
    ensures !it.Map? ==> c == RawCase(Null, Str(""), false, k, false, [])
    ensures it.Map? ==> c.payload == GetOr(it.entries, "payload", Null)
    ensures it.Map? ==> c.parseFlag == Truthy(GetOr(it.entries, "parse_payload", Bool(false)))
    ensures it.Map? ==> c.fromExamples == Truthy(GetOr(it.entries, "from_examples", Bool(false)))
    ensures it.Map? ==> c.description == Or(GetOr(it.entries, "description", Null), Str(""))
    ensures it.Map? ==> (Truthy(GetOr(it.entries, "description", Null)) <==> c.description != Str(""))
    ensures it.Map? ==> c.warnings == UserWarnings(it.entries)
  {
    if it.Map? then
      RawCase(GetOr(it.entries, "payload", Null), Or(GetOr(it.entries, "description", Null), Str("")),
              Truthy(GetOr(it.entries, "parse_payload", Bool(false))), k,
              Truthy(GetOr(it.entries, "from_examples", Bool(false))), UserWarnings(it.entries))
    else RawCase(Null, Str(""), false, k, false, [])
  }

  /** The body of the loop of `_iter_cases`. */
  method ReadCase(k: string, it: Value) returns (c: RawCase)
    ensures c == CaseOf(k, it)
  {
    if it.Map? {
      var warnings := GetOr(it.entries, "warnings", Null);
      var userWarns: seq<string> := [];
      if warnings.List? {
        userWarns := CollectStringWarnings(warnings.items);
      }
      c := RawCase(GetOr(it.entries, "payload", Null), Or(GetOr(it.entries, "description", Null), Str("")),
                   Truthy(GetOr(it.entries, "parse_payload", Bool(false))), k,
                   Truthy(GetOr(it.entries, "from_examples", Bool(false))), userWarns);
    } else {
      c := RawCase(Null, Str(""), false, k, false, []);
    }
  }

  /** The cases of group `key` of a test value: none unless both the value
      and the group are mappings. */
  function GroupItems(testValue: Value, key: string): Entries {
    if testValue.Map? && GetOr(testValue.entries, key, Null).Map? then GetOr(testValue.entries, key, Null).entries
    else []
  }

  /** `_iter_cases`: one case per entry of the group, in order. */
  function Cases(testValue: Value, key: string): (r: seq<RawCase>)
    ensures |r| == |GroupItems(testValue, key)|
    ensures forall i :: 0 <= i < |r| ==> r[i] == CaseOf(GroupItems(testValue, key)[i].0, GroupItems(testValue, key)[i].1)
    ensures !testValue.Map? || !GetOr(testValue.entries, key, Null).Map? ==> r == []
  {
    var items := GroupItems(testValue, key);
    seq(|items|, i requires 0 <= i < |items| => CaseOf(items[i].0, items[i].1))
  }

  method IterCases(testValue: Value, key: string) returns (out: seq<RawCase>)
    ensures out == Cases(testValue, key)
  {
    var items: Entries := [];
    if testValue.Map? {
      var group := GetOr(testValue.entries, key, Null);
      if group.Map? {
        items := group.entries;
      }
    }
    assert items == GroupItems(testValue, key);
    out := [];
    var i := 0;
    while i < |items|
      invariant 0 <= i <= |items|
      invariant out == Cases(testValue, key)[..i]
    {
      var (k, it) := items[i];
      var c := ReadCase(k, it);
      assert Cases(testValue, key)[..i + 1] == Cases(testValue, key)[..i] + [c];
      out := out + [c];
      i := i + 1;
    }
    assert Cases(testValue, key)[..i] == Cases(testValue, key);
  }

  // ---------------------------------------------------------------------
  // `_prepare_case` and `_validate_raw`

  /** The instance to validate, the payload to echo (`Null`: none), the
      parsed payload to echo (`Null`: none), and whether to echo
      `parse_payload: true`. */
  datatype Prepared = Prepared(instance: Value, origPayload: Value, payloadParsed: Value, emitParseFlag: bool)

  /** `_prepare_case`: without a payload the case key itself is loaded as
      YAML; with `parse_payload` a string payload is loaded; otherwise the
      payload is the instance.  `None` when loading raises. */
  function PrepareCase(payload: Value, parseFlag: bool, caseKey: string, load: Loader): (r: Option<Prepared>)
  {
    if payload == Null then
      match load(caseKey)
      case None => None
      case Some(instance) => Some(Prepared(instance, Null, instance, false))
    else if parseFlag && payload.Str? then
      match load(payload.s)
      case None => None
      case Some(instance) => Some(Prepared(instance, payload, instance, true))
    else Some(Prepared(payload, payload, Null, false))
  }

  /** What `_prepare_case` prepares: it fails exactly when the text it
      loads does not load; the payload is echoed as given; `parse_payload:
      true` is echoed exactly for a string payload under `parse_payload`; a
      loaded instance is echoed as `payload_parsed`, and a payload used as
      it is echoes nothing parsed. */
  lemma PrepareCaseSpec(payload: Value, parseFlag: bool, caseKey: string, load: Loader)
    ensures var r := PrepareCase(payload, parseFlag, caseKey, load);
      && (r.None? <==> (payload == Null && load(caseKey).None?) || (parseFlag && payload.Str? && load(payload.s).None?))
      && (r.Some? ==> r.value.origPayload == payload)
      && (r.Some? ==> (r.value.emitParseFlag <==> parseFlag && payload.Str?))
      && (r.Some? && payload == Null ==> r.value.instance == load(caseKey).value)
      && (r.Some? && r.value.emitParseFlag ==> r.value.instance == load(payload.s).value)
      && (r.Some? && (payload == Null || r.value.emitParseFlag) ==> r.value.payloadParsed == r.value.instance)
      && (r.Some? && payload != Null && !r.value.emitParseFlag ==> r.value.instance == payload && r.value.payloadParsed == Null)
  {
  }

  /** `_validate_raw`: accepted, or rejected with the message of the first
      error; `None` when the validator raises anything else. */
  function ValidateRaw(v: Validator, instance: Value): (r: Option<(bool, Option<string>)>)
    ensures r.None? <==> Raises(v, instance)
    ensures r.Some? ==> (r.value.0 <==> Accepts(v, instance))
    ensures r.Some? ==> (r.value.1.None? <==> r.value.0)
    ensures r.Some? && !r.value.0 ==> r.value.1 == Some(v(instance).errors[0].message)
  {
    var run := v(instance);
    if run.errors != [] then Some((false, Some(run.errors[0].message)))
    else if run.raisesAfter then None
    else Some((true, None))
  }

  /** Python's `a or b` on two optional strings: `a` unless it is `None` or
      empty. */
  function StrOr(a: Option<string>, b: Option<string>): (r: Option<string>)
    ensures a.Some? && a.value != "" ==> r == a
    ensures !(a.Some? && a.value != "") ==> r == b
  {
    if a.Some? && a.value != "" then a else b
  }

  // ---------------------------------------------------------------------
  // Messages

  const UnexpectedlyValid: string := "UNEXPECTEDLY VALID"

  /** `_pattern_advice`. */
  const PatternAdvice: string :=
    "Consider enforcing the expected format by adding an explicit 'pattern' property to the schema."

  /** The `format` values of the `format` errors, in order. */
  function Formats(errs: seq<VError>): seq<string> {
    if errs == [] then []
    else
      var last := errs[|errs| - 1];
      var rest := Formats(errs[..|errs| - 1]);
      if last.keyword == "format" then rest + [last.format] else rest
  }

  /** The formats named are exactly those of the `format` errors. */
  lemma {:induction false} FormatsSpec(errs: seq<VError>)
    ensures forall i :: 0 <= i < |errs| && errs[i].keyword == "format" ==> errs[i].format in Formats(errs)
    ensures forall f :: f in Formats(errs) ==> exists i :: 0 <= i < |errs| && errs[i].keyword == "format" && errs[i].format == f
  {
    if errs != [] {
      var init := errs[..|errs| - 1];
      FormatsSpec(init);
      assert forall i :: 0 <= i < |init| ==> init[i] == errs[i];
    }
  }

  predicate HasFormatError(errs: seq<VError>) {
    exists i :: 0 <= i < |errs| && errs[i].keyword == "format"
  }

  /** There are formats to name exactly when there is a `format` error. */
  lemma FormatsPresent(errs: seq<VError>)
    ensures SortedSet(Formats(errs)) != [] <==> HasFormatError(errs)
  {
    var fmts := SortedSet(Formats(errs));
    FormatsSpec(errs);
    SortedSetSpec(Formats(errs));
    if HasFormatError(errs) {
      var i :| 0 <= i < |errs| && errs[i].keyword == "format";
      assert errs[i].format in Elems(fmts);
    }
  }

  /** ` (format: a, b)` over the sorted, distinct formats, or nothing. */
  function FormatNote(errs: seq<VError>): string {
    var fmts := SortedSet(Formats(errs));
    if fmts != [] then " (format: " + Join(fmts, ", ") + ")" else ""
  }

  /** The note names the formats exactly when there is a `format` error. */
  lemma FormatNoteSpec(errs: seq<VError>)
    ensures HasFormatError(errs) ==> FormatNote(errs) == " (format: " + Join(SortedSet(Formats(errs)), ", ") + ")"
    ensures !HasFormatError(errs) ==> FormatNote(errs) == ""
  {
    FormatsPresent(errs);
  }

  /** The error message of an invalid case accepted by the lenient validator
      only: `"\n".join` of four lines, the last of them empty. */
  function DivergenceMessage(strictErrors: seq<VError>): (msg: string)
    ensures StartsWith(msg, UnexpectedlyValid) && msg != UnexpectedlyValid
  {
    var rest := "\n"
      + ("A validator that *ignores* 'format' accepted this instance, while a strict validator"
         + " (enforcing 'format') might reject it as desired" + FormatNote(strictErrors) + ".") + "\n"
      + PatternAdvice + "\n" + "";
    PrefixOfConcat(UnexpectedlyValid, rest);
    UnexpectedlyValid + rest
  }

  lemma PrefixOfConcat(a: string, b: string)
    requires b != ""
    ensures StartsWith(a + b, a) && a + b != a
  {
    assert (a + b)[..|a|] == a;
    assert |a + b| > |a|;
  }

  /** The message of the generated `format-divergence` warning. */
  function FormatWarningMessage(strictErrors: seq<VError>): string {
    Join(["Relies on JSON Schema 'format' assertion" + FormatNote(strictErrors) + ".",
          "Validators that *enforce* 'format' will reject this instance.",
          PatternAdvice,
          ""], "\n")
  }

  /** The generated warning entry. */
  function FormatWarning(strictErrors: seq<VError>): Value {
    Map([("generated", Str(FormatWarningMessage(strictErrors))), ("code", Str("format-divergence"))])
  }

  // ---------------------------------------------------------------------
  // Output records

  /** An output case as `validate_doc` leaves it: description (shown when
      truthy), payload and parsed payload (shown when not `None`), the
      `parse_payload` and `from_examples` flags (shown when set), result,
      message or validation message, and warnings (shown when any). */
  datatype CaseOut = CaseOut(description: Value, payload: Value, parseFlag: bool, result: Outcome,
                             message: Option<string>, validationMessage: Option<string>,
                             payloadParsed: Value, fromExamples: bool, warnings: seq<Value>)

  /** `_assemble_output`: a message takes the place of a validation
      message. */
  function AssembleOutput(desc: Value, origPayload: Value, payloadParsed: Value, emitParseFlag: bool,
                          result: Outcome, errorMsg: Option<string>, validationMsg: Option<string>): (c: CaseOut)
    ensures c.message == errorMsg
    ensures c.validationMessage.Some? <==> errorMsg.None? && validationMsg.Some?
    ensures c.validationMessage.Some? ==> c.validationMessage == validationMsg
    ensures c.result == result && c.description == desc && c.payload == origPayload
    ensures c.payloadParsed == payloadParsed && c.parseFlag == emitParseFlag
    ensures !c.fromExamples && c.warnings == []
  {
    CaseOut(desc, origPayload, emitParseFlag, result, errorMsg, if errorMsg.Some? then None else validationMsg,
            payloadParsed, false, [])
  }

  function Opt(present: bool, key: string, v: Value): Entries {
    if present then [(key, v)] else []
  }

  /** The dictionary of an output case, keys in the order the tool inserts
      them. */
  function Render(c: CaseOut): Entries {
    RenderHead(c) + RenderMessage(c) + RenderTail(c)
  }

  function RenderHead(c: CaseOut): Entries {
    Opt(Truthy(c.description), "description", c.description) + RenderInput(c)
  }

  function RenderInput(c: CaseOut): Entries {
    Opt(c.payload != Null, "payload", c.payload)
    + Opt(c.parseFlag, "parse_payload", Bool(true))
    + [("result", Str(Name(c.result)))]
  }

  function RenderMessage(c: CaseOut): Entries {
    if c.message.Some? then [("message", Str(c.message.value))]
    else if c.validationMessage.Some? then [("validation_message", Str(c.validationMessage.value))]
    else []
  }

  function RenderTail(c: CaseOut): Entries {
    Opt(c.payloadParsed != Null, "payload_parsed", c.payloadParsed)
    + Opt(c.fromExamples, "from_examples", Bool(true))
    + Opt(c.warnings != [], "warnings", List(c.warnings))
  }

  lemma HasKeyConcat(a: Entries, b: Entries, k: string)
    ensures HasKey(a + b, k) <==> HasKey(a, k) || HasKey(b, k)
  {
    if HasKey(a + b, k) {
      var i :| 0 <= i < |a + b| && (a + b)[i].0 == k;
      if i >= |a| { assert b[i - |a|].0 == k; }
    }
    if HasKey(a, k) {
      var i :| 0 <= i < |a| && a[i].0 == k;
      assert (a + b)[i].0 == k;
    }
    if HasKey(b, k) {
      var i :| 0 <= i < |b| && b[i].0 == k;
      assert (a + b)[|a| + i].0 == k;
    }
  }

  lemma HeadKeys(c: CaseOut, k: string)
    requires |k| == 18 || (|k| == 7 && k[0] == 'm')
    ensures !HasKey(RenderHead(c), k)
  {
    var h := RenderHead(c);
    assert forall i :: 0 <= i < |h| ==> |h[i].0| in {11, 7, 13, 6} && (|h[i].0| == 7 ==> h[i].0[0] == 'p');
  }

  lemma InputKeys(c: CaseOut, k: string)
    requires |k| == 11
    ensures !HasKey(RenderInput(c), k)
  {
    var h := RenderInput(c);
    assert forall i :: 0 <= i < |h| ==> |h[i].0| in {7, 13, 6};
  }

  lemma TailKeys(c: CaseOut, k: string)
    requires |k| == 18 || |k| == 7 || |k| == 11
    ensures !HasKey(RenderTail(c), k)
  {
    var t := RenderTail(c);
    assert forall i :: 0 <= i < |t| ==> |t[i].0| in {14, 13, 8};
  }

  /** A rendered case never carries both a `message` and a
      `validation_message`. */
  lemma RenderNeverBoth(c: CaseOut)
    ensures !(HasKey(Render(c), "message") && HasKey(Render(c), "validation_message"))
  {
    var m, vm := "message", "validation_message";
    assert |m| == 7 && m[0] == 'm' && |vm| == 18;
    HeadKeys(c, m);
    HeadKeys(c, vm);
    TailKeys(c, m);
    TailKeys(c, vm);
    HasKeyConcat(RenderHead(c) + RenderMessage(c), RenderTail(c), m);
    HasKeyConcat(RenderHead(c) + RenderMessage(c), RenderTail(c), vm);
    HasKeyConcat(RenderHead(c), RenderMessage(c), m);
    HasKeyConcat(RenderHead(c), RenderMessage(c), vm);
  }

  /** A rendered case carries a description exactly when it is truthy, so
      an empty one is left out. */
  lemma RenderDescription(c: CaseOut)
    ensures HasKey(Render(c), "description") <==> Truthy(c.description)
  {
    var d := "description";
    assert |d| == 11 && |"message"| == 7 && |"validation_message"| == 18;
    InputKeys(c, d);
    TailKeys(c, d);
    var h1 := Opt(Truthy(c.description), "description", c.description);
    assert !HasKey(RenderMessage(c), d);
    HasKeyConcat(h1, RenderInput(c), d);
    HasKeyConcat(RenderHead(c), RenderMessage(c), d);
    HasKeyConcat(RenderHead(c) + RenderMessage(c), RenderTail(c), d);
    if Truthy(c.description) { assert h1[0].0 == d; }
  }

  // ---------------------------------------------------------------------
  // `_evaluate_case`

  datatype Expectation = Valid | Invalid

  /** What the two validators say of an instance: whether each accepts
      (the lenient one counts as accepting when the strict one does, since
      it is then not run), their first messages, and the divergence message
      for an instance only the lenient validator accepts. */
  datatype Judgement = Judgement(okStrict: bool, errStrict: Option<string>, okBase: bool, errBase: Option<string>,
                                 divergence: string)

  /** The validator runs of `_evaluate_case`; `None` when one raises.  For
      an `invalid` case only the lenient validator accepts, the strict
      errors are listed for the message, and that listing raises when the
      strict iteration does. */
  function Judge(exp: Expectation, strict: Validator, base: Validator, instance: Value): (r: Option<Judgement>)
    ensures r.None? <==>
      || Raises(strict, instance)
      || (Rejects(strict, instance) && Raises(base, instance))
      || (exp == Invalid && Rejects(strict, instance) && Accepts(base, instance) && ListRaises(strict, instance))
    ensures r.Some? ==>
      && (r.value.okStrict <==> Accepts(strict, instance))
      && (r.value.okBase <==> Accepts(strict, instance) || Accepts(base, instance))
      && (!r.value.okStrict ==> r.value.errStrict == Some(strict(instance).errors[0].message))
      && (!r.value.okBase ==> r.value.errBase == Some(base(instance).errors[0].message))
      && (!r.value.okStrict && r.value.okBase ==> r.value.divergence == DivergenceMessage(strict(instance).errors))
  {
    match ValidateRaw(strict, instance)
    case None => None
    case Some((okStrict, errStrict)) =>
      var b := if okStrict then Some((true, None)) else ValidateRaw(base, instance);
      if b.None? then None
      else
        var (okBase, errBase) := b.value;
        if exp == Invalid && !okStrict && okBase && ListRaises(strict, instance) then None
        else
        var divergence := if !okStrict && okBase then DivergenceMessage(strict(instance).errors) else "";
        Some(Judgement(okStrict, errStrict, okBase, errBase, divergence))
  }

  /** The result and the two messages `_evaluate_case` settles on, from
      the two validators' verdicts and first messages; `divergence` is the
      message for an invalid case only the lenient validator accepts. */
  datatype Verdict = Verdict(result: Outcome, message: Option<string>, validationMessage: Option<string>)

  function Classify(exp: Expectation, okStrict: bool, errStrict: Option<string>, okBase: bool,
                    errBase: Option<string>, divergence: string): Verdict {
    var result := if (exp == Valid) == (okStrict || okBase) then SUCCESS else ERROR;
    var errMsg :=
      if exp == Valid then (if result == ERROR then StrOr(errStrict, errBase) else None)
      else if result == SUCCESS then None
      else if !okStrict && okBase then Some(divergence)
      else Some(UnexpectedlyValid);
    var valMsg := if exp == Invalid && result == SUCCESS then StrOr(errStrict, errBase) else None;
    Verdict(result, errMsg, valMsg)
  }

  /** Expectation `valid`: SUCCESS exactly when a validator accepts, and an
      ERROR carries the first message, strict first. */
  lemma ClassifyValid(okStrict: bool, errStrict: Option<string>, okBase: bool, errBase: Option<string>, divergence: string)
    ensures var v := Classify(Valid, okStrict, errStrict, okBase, errBase, divergence);
      && (v.result == SUCCESS <==> okStrict || okBase)
      && v.result != WARNING
      && (v.result == SUCCESS ==> v.message.None?)
      && (v.result == ERROR ==> v.message == StrOr(errStrict, errBase))
      && v.validationMessage.None?
  {
  }

  /** Expectation `invalid`: SUCCESS exactly when both validators reject,
      with the rejection as validation message; otherwise the divergence
      message when only the strict validator rejects, else the bare
      `UNEXPECTEDLY VALID`. */
  lemma ClassifyInvalid(okStrict: bool, errStrict: Option<string>, okBase: bool, errBase: Option<string>, divergence: string)
    ensures var v := Classify(Invalid, okStrict, errStrict, okBase, errBase, divergence);
      && (v.result == SUCCESS <==> !okStrict && !okBase)
      && v.result != WARNING
      && (v.result == SUCCESS ==> v.message.None? && v.validationMessage == StrOr(errStrict, errBase))
      && (v.result == ERROR ==> v.message == Some(if !okStrict && okBase then divergence else UnexpectedlyValid))
  {
  }

  /** The user warnings as output values. */
  function Strs(ws: seq<string>): (vs: seq<Value>)
    ensures |vs| == |ws| && forall i :: 0 <= i < |ws| ==> vs[i] == Str(ws[i])
  {
    seq(|ws|, i requires 0 <= i < |ws| => Str(ws[i]))
  }

  /** `_evaluate_case`: the case key, the output case and 1 for an ERROR (0
      otherwise); `None` when loading the instance or running a validator
      raises.  The lenient validator runs only when the strict one rejects. */
  function EvaluateCase(payload: Value, desc: Value, parseFlag: bool, caseKey: string, exp: Expectation,
                        strict: Validator, base: Validator, load: Loader, userWarnings: seq<string>)
    : (r: Option<(string, CaseOut, int)>)
    ensures r.Some? ==> r.value.0 == caseKey
    ensures r.Some? ==> r.value.2 == (if r.value.1.result == ERROR then 1 else 0)
    ensures r.Some? ==> !r.value.1.fromExamples && r.value.1.warnings == Strs(userWarnings)
  {
    match PrepareCase(payload, parseFlag, caseKey, load)
    case None => None
    case Some(p) =>
      match Judge(exp, strict, base, p.instance)
      case None => None
      case Some(j) =>
        var v := Classify(exp, j.okStrict, j.errStrict, j.okBase, j.errBase, j.divergence);
        var out := AssembleOutput(desc, p.origPayload, p.payloadParsed, p.emitParseFlag, v.result, v.message,
                                  v.validationMessage);
        Some((caseKey, out.(warnings := Strs(userWarnings)), if v.result == ERROR then 1 else 0))
  }

  /** The first message of the strict, then of the lenient validator, as
      `err_strict or err_base` picks it when both reject. */
  function FirstMessage(strict: Validator, base: Validator, instance: Value): Option<string>
    requires Rejects(strict, instance) && Rejects(base, instance)
  {
    StrOr(Some(strict(instance).errors[0].message), Some(base(instance).errors[0].message))
  }

  /** The instance `_evaluate_case` validates. */
  function InstanceOf(payload: Value, parseFlag: bool, caseKey: string, load: Loader): Value
    requires PrepareCase(payload, parseFlag, caseKey, load).Some?
  {
    PrepareCase(payload, parseFlag, caseKey, load).value.instance
  }

  /** Evaluation fails exactly when the instance cannot be loaded, the
      strict validator raises, it rejects and the lenient one raises, or an
      `invalid` case only the lenient validator accepts has its strict
      errors listed and that listing raises. */
  lemma EvaluateRaises(payload: Value, desc: Value, parseFlag: bool, caseKey: string, exp: Expectation,
                       strict: Validator, base: Validator, load: Loader, userWarnings: seq<string>)
    ensures EvaluateCase(payload, desc, parseFlag, caseKey, exp, strict, base, load, userWarnings).None? <==>
      || PrepareCase(payload, parseFlag, caseKey, load).None?
      || Raises(strict, InstanceOf(payload, parseFlag, caseKey, load))
      || (Rejects(strict, InstanceOf(payload, parseFlag, caseKey, load)) &&
          Raises(base, InstanceOf(payload, parseFlag, caseKey, load)))
      || (exp == Invalid && Rejects(strict, InstanceOf(payload, parseFlag, caseKey, load)) &&
          Accepts(base, InstanceOf(payload, parseFlag, caseKey, load)) &&
          ListRaises(strict, InstanceOf(payload, parseFlag, caseKey, load)))
  {
  }

  /** Expectation `valid`: SUCCESS exactly when one of the validators
      accepts; an ERROR carries the first rejection message, strict first,
      and no validation message. */
  lemma EvaluateValid(payload: Value, desc: Value, parseFlag: bool, caseKey: string,
                      strict: Validator, base: Validator, load: Loader, userWarnings: seq<string>)
    requires EvaluateCase(payload, desc, parseFlag, caseKey, Valid, strict, base, load, userWarnings).Some?
    ensures var out := EvaluateCase(payload, desc, parseFlag, caseKey, Valid, strict, base, load, userWarnings).value.1;
      var instance := InstanceOf(payload, parseFlag, caseKey, load);
      && (out.result == SUCCESS <==> Accepts(strict, instance) || Accepts(base, instance))
      && (out.result == SUCCESS ==> out.message.None?)
      && (out.result == ERROR ==> out.message == FirstMessage(strict, base, instance))
      && out.validationMessage.None?
  {
    var j := Judge(Valid, strict, base, InstanceOf(payload, parseFlag, caseKey, load)).value;
    EvaluateClassifies(payload, desc, parseFlag, caseKey, Valid, strict, base, load, userWarnings);
    ClassifyValid(j.okStrict, j.errStrict, j.okBase, j.errBase, j.divergence);
  }

  /** The output case carries the verdict `Classify` gives on the
      validators' judgement. */
  lemma EvaluateClassifies(payload: Value, desc: Value, parseFlag: bool, caseKey: string, exp: Expectation,
                           strict: Validator, base: Validator, load: Loader, userWarnings: seq<string>)
    requires EvaluateCase(payload, desc, parseFlag, caseKey, exp, strict, base, load, userWarnings).Some?
    ensures var out := EvaluateCase(payload, desc, parseFlag, caseKey, exp, strict, base, load, userWarnings).value.1;
      var j := Judge(exp, strict, base, InstanceOf(payload, parseFlag, caseKey, load)).value;
      var v := Classify(exp, j.okStrict, j.errStrict, j.okBase, j.errBase, j.divergence);
      out.result == v.result && out.message == v.message && out.validationMessage == v.validationMessage
  {
  }

  /** Expectation `invalid`: SUCCESS exactly when both validators reject,
      and then the rejection goes to `validation_message`; otherwise the
      message starts with `UNEXPECTEDLY VALID`, and it goes on to explain
      `format` exactly when the strict validator rejects and the lenient one
      accepts. */
  lemma EvaluateInvalid(payload: Value, desc: Value, parseFlag: bool, caseKey: string,
                        strict: Validator, base: Validator, load: Loader, userWarnings: seq<string>)
    requires EvaluateCase(payload, desc, parseFlag, caseKey, Invalid, strict, base, load, userWarnings).Some?
    ensures var out := EvaluateCase(payload, desc, parseFlag, caseKey, Invalid, strict, base, load, userWarnings).value.1;
      var instance := InstanceOf(payload, parseFlag, caseKey, load);
      && (out.result == SUCCESS <==> Rejects(strict, instance) && Rejects(base, instance))
      && (out.result == SUCCESS ==> out.message.None? && out.validationMessage == FirstMessage(strict, base, instance))
      && (out.result == ERROR ==> out.message.Some? && StartsWith(out.message.value, UnexpectedlyValid))
      && (out.result == ERROR ==>
            (out.message.value != UnexpectedlyValid <==> Rejects(strict, instance) && Accepts(base, instance)))
  {
    var j := Judge(Invalid, strict, base, InstanceOf(payload, parseFlag, caseKey, load)).value;
    ClassifyInvalid(j.okStrict, j.errStrict, j.okBase, j.errBase, j.divergence);
  }

  /** The output of a case without payload: the loaded case key is the
      instance and is echoed as `payload_parsed` (unless it is null), and
      there is no `payload`. */
  lemma KeyAsPayload(desc: Value, parseFlag: bool, caseKey: string, exp: Expectation,
                     strict: Validator, base: Validator, load: Loader, userWarnings: seq<string>)
    requires EvaluateCase(Null, desc, parseFlag, caseKey, exp, strict, base, load, userWarnings).Some?
    ensures var out := EvaluateCase(Null, desc, parseFlag, caseKey, exp, strict, base, load, userWarnings).value.1;
      && load(caseKey).Some? && InstanceOf(Null, parseFlag, caseKey, load) == load(caseKey).value
      && out.payload == Null && out.payloadParsed == load(caseKey).value && !out.parseFlag
  {
  }

  /** With `parse_payload` a string payload is loaded, the string is echoed
      as `payload` and the loaded value as `payload_parsed`; without it the
      payload is the instance and nothing parsed is echoed. */
  lemma PayloadEcho(payload: Value, desc: Value, parseFlag: bool, caseKey: string, exp: Expectation,
                    strict: Validator, base: Validator, load: Loader, userWarnings: seq<string>)
    requires payload != Null
    requires EvaluateCase(payload, desc, parseFlag, caseKey, exp, strict, base, load, userWarnings).Some?
    ensures var out := EvaluateCase(payload, desc, parseFlag, caseKey, exp, strict, base, load, userWarnings).value.1;
      && out.payload == payload
      && (parseFlag && payload.Str? ==>
            load(payload.s).Some? && InstanceOf(payload, parseFlag, caseKey, load) == load(payload.s).value &&
            out.payloadParsed == load(payload.s).value && out.parseFlag)
      && (!(parseFlag && payload.Str?) ==>
            InstanceOf(payload, parseFlag, caseKey, load) == payload && out.payloadParsed == Null && !out.parseFlag)
  {
    EvaluateEchoes(payload, desc, parseFlag, caseKey, exp, strict, base, load, userWarnings);
    var p := PrepareCase(payload, parseFlag, caseKey, load);
    PrepareCaseSpec(payload, parseFlag, caseKey, load);
    assert p.Some?;
  }

  /** The output case echoes what `_prepare_case` prepared. */
  lemma EvaluateEchoes(payload: Value, desc: Value, parseFlag: bool, caseKey: string, exp: Expectation,
                       strict: Validator, base: Validator, load: Loader, userWarnings: seq<string>)
    requires EvaluateCase(payload, desc, parseFlag, caseKey, exp, strict, base, load, userWarnings).Some?
    ensures var out := EvaluateCase(payload, desc, parseFlag, caseKey, exp, strict, base, load, userWarnings).value.1;
      var p := PrepareCase(payload, parseFlag, caseKey, load).value;
      out.payload == p.origPayload && out.payloadParsed == p.payloadParsed && out.parseFlag == p.emitParseFlag
  {
  }

  // ---------------------------------------------------------------------
  // `_add_warning_if_only_strict_fails` and promotion

  /** The instance the warning check looks at: `payload_parsed`, else
      `payload`, else nothing (`Null`). */
  function WarningInstance(c: CaseOut): Value {
    if c.payloadParsed != Null then c.payloadParsed else c.payload
  }

  /** The three conditions of the `format-divergence` warning. */
  predicate Diverges(c: CaseOut, strict: Validator, base: Validator) {
    var inst := WarningInstance(c);
    && c.result == SUCCESS
    && inst != Null
    && !ListRaises(strict, inst) && HasFormatError(strict(inst).errors)
    && Accepts(base, inst)
  }

  /** When the warning check raises: listing the strict validator's errors
      raises, or the strict validator reported a `format` error and the
      lenient one raises before its first error. */
  predicate CheckRaises(c: CaseOut, strict: Validator, base: Validator) {
    var inst := WarningInstance(c);
    && c.result == SUCCESS
    && inst != Null
    && (ListRaises(strict, inst) || (HasFormatError(strict(inst).errors) && Raises(base, inst)))
  }

  /** The warning a diverging case gains, and nothing for any other case. */
  function DivergenceNote(c: CaseOut, strict: Validator, base: Validator): seq<Value> {
    if Diverges(c, strict, base) then [FormatWarning(strict(WarningInstance(c)).errors)] else []
  }

  /** `_add_warning_if_only_strict_fails`: appends the warning when the case
      succeeded, the strict validator reports a `format` error and the
      lenient validator reports nothing; it changes nothing else, the
      result least of all.  `None` when a validator raises. */
  function AddFormatWarning(c: CaseOut, strict: Validator, base: Validator): (r: Option<CaseOut>)
    ensures r.None? <==> CheckRaises(c, strict, base)
  {
    var inst := WarningInstance(c);
    if c.result != SUCCESS || inst == Null then Some(c)
    else if strict(inst).raisesAfter then None
    else if strict(inst).errors == [] || !HasFormatError(strict(inst).errors) then Some(c)
    else if base(inst).errors != [] then Some(c)
    else if base(inst).raisesAfter then None
    else Some(c.(warnings := c.warnings + [FormatWarning(strict(inst).errors)]))
  }

  /** When the check does not raise it changes the warnings alone: a
      diverging case gains the `format-divergence` warning, any other case
      is left as it is. */
  lemma AddFormatWarningEffect(c: CaseOut, strict: Validator, base: Validator)
    requires !CheckRaises(c, strict, base)
    ensures AddFormatWarning(c, strict, base) == Some(c.(warnings := c.warnings + DivergenceNote(c, strict, base)))
  {
    if Diverges(c, strict, base) {
      var inst := WarningInstance(c);
      assert strict(inst).errors != [];
    } else {
      assert c.warnings + [] == c.warnings;
    }
  }

  /** Every format the strict validator complains about is named in the
      warning, in sorted order and once. */
  lemma FormatWarningNamesFormats(c: CaseOut, strict: Validator, base: Validator, i: nat)
    requires Diverges(c, strict, base)
    requires var errs := strict(WarningInstance(c)).errors; i < |errs| && errs[i].keyword == "format"
    ensures var fmts := SortedSet(Formats(strict(WarningInstance(c)).errors));
      && StrictlySorted(fmts)
      && strict(WarningInstance(c)).errors[i].format in fmts
      && FormatNote(strict(WarningInstance(c)).errors) == " (format: " + Join(fmts, ", ") + ")"
  {
    var errs := strict(WarningInstance(c)).errors;
    FormatsSpec(errs);
    SortedSetSpec(Formats(errs));
    FormatNoteSpec(errs);
    assert errs[i].format in Elems(SortedSet(Formats(errs)));
  }

  /** The warning check is not always made on the validated instance: a
      `parse_payload` string that loads to null is validated as null, but
      the check falls back to the unparsed string, which the validators have
      not seen. */
  lemma WarningChecksRawString(s: string, desc: Value, caseKey: string, exp: Expectation,
                               strict: Validator, base: Validator, load: Loader, userWarnings: seq<string>)
    requires load(s) == Some(Null)
    requires EvaluateCase(Str(s), desc, true, caseKey, exp, strict, base, load, userWarnings).Some?
    ensures var out := EvaluateCase(Str(s), desc, true, caseKey, exp, strict, base, load, userWarnings).value.1;
      InstanceOf(Str(s), true, caseKey, load) == Null && WarningInstance(out) == Str(s)
  {
  }

  /** SUCCESS with any warning becomes WARNING. */
  function Promote(c: CaseOut): (r: CaseOut)
    ensures r.result == ERROR <==> c.result == ERROR
    ensures r.result == WARNING <==> c.result == WARNING || (c.result == SUCCESS && c.warnings != [])
    ensures r == c.(result := r.result)
  {
    if c.result == SUCCESS && c.warnings != [] then c.(result := WARNING) else c
  }

  // ---------------------------------------------------------------------
  // `validate_doc`

  /** What `validate_doc` works with: the validator pair each ref builds to
      (`None` when `build_validator_for_ref` raises), the schema document of
      each file part (`None` when reading or loading it raises), the YAML
      loader for payloads and case keys, the output level, and `in_place`. */
  datatype Env = Env(build: string -> Option<(Validator, Validator)>, readSchema: string -> Option<Value>,
                     load: Loader, level: string, inPlace: bool)

  /** The cases of one ref collected so far, and the exit code. */
  datatype Acc = Acc(valid: Entries, invalid: Entries, rc: int)

  function Max(a: int, b: int): int {
    if a >= b then a else b
  }

  /** A classified case is filed under its expectation unless the output
      level hides it (`in_place` shows everything), and an ERROR raises the
      exit code to at least 1. */
  function Record(acc: Acc, exp: Expectation, key: string, c: CaseOut, env: Env): (r: Acc)
    ensures r.rc == Max(acc.rc, if c.result == ERROR then 1 else 0)
    ensures !env.inPlace && !Visible(env.level, Name(c.result)) ==> r.valid == acc.valid && r.invalid == acc.invalid
    ensures exp == Valid ==> r.invalid == acc.invalid
    ensures exp == Invalid ==> r.valid == acc.valid
    ensures (env.inPlace || Visible(env.level, Name(c.result))) && exp == Valid ==> r.valid == Put(acc.valid, key, Map(Render(c)))
    ensures (env.inPlace || Visible(env.level, Name(c.result))) && exp == Invalid ==> r.invalid == Put(acc.invalid, key, Map(Render(c)))
  {
    var shown := env.inPlace || Visible(env.level, Name(c.result));
    var entry := Map(Render(c));
    Acc(if shown && exp == Valid then Put(acc.valid, key, entry) else acc.valid,
        if shown && exp == Invalid then Put(acc.invalid, key, entry) else acc.invalid,
        Max(acc.rc, if c.result == ERROR then 1 else 0))
  }

  /** What became of one case: skipped without a trace (`from_examples`
      set on a declared case), skipped with exit code 2 (its evaluation
      raised), an exception that escapes `validate_doc` (the warning check
      raised), or classified. */
  datatype CaseResult = Ignored | Skipped | Escaped | Filed(key: string, out: CaseOut)

  /** One example: evaluated as a `valid` case without description, marked
      `from_examples`, checked for `format` divergence and promoted. */
  function ExampleCase(ex: (string, Value), strict: Validator, base: Validator, env: Env): CaseResult {
    match EvaluateCase(ex.1, Str(""), false, ex.0, Valid, strict, base, env.load, [])
    case None => Skipped
    case Some((key, out, _)) =>
      match AddFormatWarning(out.(fromExamples := true), strict, base)
      case None => Escaped
      case Some(c) => Filed(key, Promote(c))
  }

  /** One declared case. */
  function DeclaredCase(rc: RawCase, exp: Expectation, strict: Validator, base: Validator, env: Env): CaseResult {
    if rc.fromExamples then Ignored
    else
      match EvaluateCase(rc.payload, rc.description, rc.parseFlag, rc.key, exp, strict, base, env.load, rc.warnings)
      case None => Skipped
      case Some((key, out, _)) =>
        match AddFormatWarning(out, strict, base)
        case None => Escaped
        case Some(c) => Filed(key, Promote(c))
  }

  /** The warning check can raise after an evaluation that did not:
      `validate` stops at the first error, `list(iter_errors(...))` runs to
      the end.  An `invalid` case both validators reject is a SUCCESS, and
      when the strict iteration raises after its errors, the check on that
      case escapes `validate_doc`. */
  lemma InvalidSuccessCanEscape(rc: RawCase, strict: Validator, base: Validator, env: Env)
    requires !rc.fromExamples && rc.payload != Null && !rc.parseFlag
    requires Rejects(strict, rc.payload) && Rejects(base, rc.payload) && ListRaises(strict, rc.payload)
    ensures var r := EvaluateCase(rc.payload, rc.description, rc.parseFlag, rc.key, Invalid, strict, base, env.load, rc.warnings);
      r.Some? && r.value.1.result == SUCCESS
    ensures DeclaredCase(rc, Invalid, strict, base, env) == Escaped
  {
  }

  /** Folds one case into the collected cases and the exit code. */
  function Apply(acc: Acc, cr: CaseResult, exp: Expectation, env: Env): (r: Option<Acc>)
    ensures r.None? <==> cr.Escaped?
    ensures r.Some? ==> acc.rc <= r.value.rc <= Max(acc.rc, 2)
    ensures cr.Skipped? ==> r == Some(acc.(rc := Max(acc.rc, 2)))
  {
    match cr
    case Ignored => Some(acc)
    case Skipped => Some(acc.(rc := Max(acc.rc, 2)))
    case Escaped => None
    case Filed(key, out) => Some(Record(acc, exp, key, out, env))
  }

  /** The collected cases do not depend on the exit code so far. */
  lemma ApplyIgnoresRc(v: Entries, i: Entries, r1: int, r2: int, cr: CaseResult, exp: Expectation, env: Env)
    ensures var a, b := Apply(Acc(v, i, r1), cr, exp, env), Apply(Acc(v, i, r2), cr, exp, env);
      a.Some? == b.Some? && (a.Some? ==> a.value.valid == b.value.valid && a.value.invalid == b.value.invalid)
  {
  }

  function ExamplesFrom(acc: Acc, exs: seq<(string, Value)>, strict: Validator, base: Validator, env: Env): Option<Acc>
    decreases |exs|
  {
    if exs == [] then Some(acc)
    else
      match Apply(acc, ExampleCase(exs[0], strict, base, env), Valid, env)
      case None => None
      case Some(a) => ExamplesFrom(a, exs[1..], strict, base, env)
  }

  function CasesFrom(acc: Acc, cases: seq<RawCase>, exp: Expectation, strict: Validator, base: Validator, env: Env): Option<Acc>
    decreases |cases|
  {
    if cases == [] then Some(acc)
    else
      match Apply(acc, DeclaredCase(cases[0], exp, strict, base, env), exp, env)
      case None => None
      case Some(a) => CasesFrom(a, cases[1..], exp, strict, base, env)
  }

  function GroupKey(exp: Expectation): string {
    if exp == Valid then "valid" else "invalid"
  }

  /** The declared cases of one expectation: only when the test value is a
      mapping that has the key. */
  function Declared(value: Value, exp: Expectation): seq<RawCase> {
    if value.Map? && HasKey(value.entries, GroupKey(exp)) then Cases(value, GroupKey(exp)) else []
  }

  /** The output group of one ref: its non-empty case groups. */
  function Group(acc: Acc): Entries {
    Opt(acc.valid != [], "valid", Map(acc.valid)) + Opt(acc.invalid != [], "invalid", Map(acc.invalid))
  }

  /** One ref of `tests`: a ref whose validators cannot be built, or whose
      examples cannot be collected, is skipped with exit code 2; otherwise
      its examples, then its `valid` cases, then its `invalid` cases are
      classified, and a non-empty group is stored under the ref. */
  function RefOutcome(tests: Entries, rc: int, ref: string, value: Value, env: Env): Option<(Entries, int)> {
    match env.build(ref)
    case None => Some((tests, Max(rc, 2)))
    case Some((strict, base)) =>
      match env.readSchema(FilePart(ref))
      case None => Some((tests, Max(rc, 2)))
      case Some(loaded) =>
        RefCases(tests, rc, ref, Examples(loaded, ref), Declared(value, Valid), Declared(value, Invalid), strict, base, env)
  }

  /** A ref whose validators and schema are at hand: its cases are run and
      a run that does not raise stores its group and passes on its exit
      code. */
  function RefCases(tests: Entries, rc: int, ref: string, exs: seq<(string, Value)>, valids: seq<RawCase>,
                    invalids: seq<RawCase>, strict: Validator, base: Validator, env: Env): Option<(Entries, int)> {
    Store(tests, ref, RunCases(Acc([], [], rc), exs, valids, invalids, strict, base, env))
  }

  /** A run that did not raise stores its group and passes on its exit code. */
  function Store(tests: Entries, ref: string, run: Option<Acc>): Option<(Entries, int)> {
    match run
    case None => None
    case Some(a) => Some((StoreGroup(tests, ref, a), a.rc))
  }

  /** The examples, then the declared valid cases, then the declared invalid
      cases of one ref. */
  function RunCases(acc: Acc, exs: seq<(string, Value)>, valids: seq<RawCase>, invalids: seq<RawCase>,
                    strict: Validator, base: Validator, env: Env): Option<Acc> {
    match ExamplesFrom(acc, exs, strict, base, env)
    case None => None
    case Some(a1) =>
      match CasesFrom(a1, valids, Valid, strict, base, env)
      case None => None
      case Some(a2) => CasesFrom(a2, invalids, Invalid, strict, base, env)
  }

  /** A non-empty group is stored under its ref. */
  function StoreGroup(tests: Entries, ref: string, acc: Acc): Entries {
    var group := Group(acc);
    if group != [] then Put(tests, ref, Map(group)) else tests
  }

  function RefsFrom(tests: Entries, rc: int, refs: Entries, env: Env): Option<(Entries, int)>
    decreases |refs|
  {
    if refs == [] then Some((tests, rc))
    else
      match RefOutcome(tests, rc, refs[0].0, refs[0].1, env)
      case None => None
      case Some((t, r)) => RefsFrom(t, r, refs[1..], env)
  }

  /** `validate_doc`: the output tests and the exit code; `None` when an
      exception escapes (a `tests` value that is truthy but not a mapping,
      or a raising warning check). */
  function ValidateDocSpec(doc: Entries, env: Env): Option<(Entries, int)> {
    var tests := Or(GetOr(doc, "tests", Null), Map([]));
    if !tests.Map? then None else RefsFrom([], 0, tests.entries, env)
  }

  // ---------------------------------------------------------------------
  // The exit code

  lemma {:induction false} ExamplesRc(acc: Acc, exs: seq<(string, Value)>, strict: Validator, base: Validator, env: Env)
    requires 0 <= acc.rc <= 2
    ensures var r := ExamplesFrom(acc, exs, strict, base, env); r.Some? ==> acc.rc <= r.value.rc <= 2
    decreases |exs|
  {
    if exs != [] {
      match Apply(acc, ExampleCase(exs[0], strict, base, env), Valid, env) {
        case None =>
        case Some(a) => ExamplesRc(a, exs[1..], strict, base, env);
      }
    }
  }

  lemma {:induction false} CasesRc(acc: Acc, cases: seq<RawCase>, exp: Expectation, strict: Validator, base: Validator, env: Env)
    requires 0 <= acc.rc <= 2
    ensures var r := CasesFrom(acc, cases, exp, strict, base, env); r.Some? ==> acc.rc <= r.value.rc <= 2
    decreases |cases|
  {
    if cases != [] {
      match Apply(acc, DeclaredCase(cases[0], exp, strict, base, env), exp, env) {
        case None =>
        case Some(a) => CasesRc(a, cases[1..], exp, strict, base, env);
      }
    }
  }

  lemma RefRc(tests: Entries, rc: int, ref: string, value: Value, env: Env)
    requires 0 <= rc <= 2
    ensures var r := RefOutcome(tests, rc, ref, value, env); r.Some? ==> rc <= r.value.1 <= 2
  {
    match env.build(ref) {
      case None =>
      case Some((strict, base)) =>
        match env.readSchema(FilePart(ref)) {
          case None =>
          case Some(loaded) =>
            RunCasesRc(Acc([], [], rc), Examples(loaded, ref), Declared(value, Valid), Declared(value, Invalid), strict, base, env);
        }
    }
  }

  lemma RunCasesRc(acc: Acc, exs: seq<(string, Value)>, valids: seq<RawCase>, invalids: seq<RawCase>,
                   strict: Validator, base: Validator, env: Env)
    requires 0 <= acc.rc <= 2
    ensures var r := RunCases(acc, exs, valids, invalids, strict, base, env); r.Some? ==> acc.rc <= r.value.rc <= 2
  {
    var e := ExamplesFrom(acc, exs, strict, base, env);
    ExamplesRc(acc, exs, strict, base, env);
    if e.Some? {
      var c := CasesFrom(e.value, valids, Valid, strict, base, env);
      CasesRc(e.value, valids, Valid, strict, base, env);
      if c.Some? {
        CasesRc(c.value, invalids, Invalid, strict, base, env);
      }
    }
  }

  lemma {:induction false} RefsRc(tests: Entries, rc: int, refs: Entries, env: Env)
    requires 0 <= rc <= 2
    ensures var r := RefsFrom(tests, rc, refs, env); r.Some? ==> rc <= r.value.1 <= 2
    decreases |refs|
  {
    if refs != [] {
      RefRc(tests, rc, refs[0].0, refs[0].1, env);
      match RefOutcome(tests, rc, refs[0].0, refs[0].1, env) {
        case None =>
        case Some((t, r)) => RefsRc(t, r, refs[1..], env);
      }
    }
  }

  /** The exit code of `validate_doc` is 0, 1 or 2. */
  lemma ValidateDocRc(doc: Entries, env: Env)
    requires ValidateDocSpec(doc, env).Some?
    ensures 0 <= ValidateDocSpec(doc, env).value.1 <= 2
  {
    var tests := Or(GetOr(doc, "tests", Null), Map([]));
    RefsRc([], 0, tests.entries, env);
  }

  // ---------------------------------------------------------------------
  // A failed ref does not stop later refs

  lemma {:induction false} ExamplesIgnoreRc(v: Entries, i: Entries, r1: int, r2: int, exs: seq<(string, Value)>,
                                            strict: Validator, base: Validator, env: Env)
    ensures var a, b := ExamplesFrom(Acc(v, i, r1), exs, strict, base, env), ExamplesFrom(Acc(v, i, r2), exs, strict, base, env);
      a.Some? == b.Some? && (a.Some? ==> a.value.valid == b.value.valid && a.value.invalid == b.value.invalid)
    decreases |exs|
  {
    if exs != [] {
      var cr := ExampleCase(exs[0], strict, base, env);
      var s1, s2 := Apply(Acc(v, i, r1), cr, Valid, env), Apply(Acc(v, i, r2), cr, Valid, env);
      ApplyIgnoresRc(v, i, r1, r2, cr, Valid, env);
      if s1.Some? {
        assert s1.value.valid == s2.value.valid && s1.value.invalid == s2.value.invalid;
        assert s1.value == Acc(s1.value.valid, s1.value.invalid, s1.value.rc);
        assert s2.value == Acc(s1.value.valid, s1.value.invalid, s2.value.rc);
        ExamplesIgnoreRc(s1.value.valid, s1.value.invalid, s1.value.rc, s2.value.rc, exs[1..], strict, base, env);
      }
    }
  }

  lemma {:induction false} CasesIgnoreRc(v: Entries, i: Entries, r1: int, r2: int, cases: seq<RawCase>, exp: Expectation,
                                         strict: Validator, base: Validator, env: Env)
    ensures var a, b := CasesFrom(Acc(v, i, r1), cases, exp, strict, base, env), CasesFrom(Acc(v, i, r2), cases, exp, strict, base, env);
      a.Some? == b.Some? && (a.Some? ==> a.value.valid == b.value.valid && a.value.invalid == b.value.invalid)
    decreases |cases|
  {
    if cases != [] {
      var cr := DeclaredCase(cases[0], exp, strict, base, env);
      var s1, s2 := Apply(Acc(v, i, r1), cr, exp, env), Apply(Acc(v, i, r2), cr, exp, env);
      ApplyIgnoresRc(v, i, r1, r2, cr, exp, env);
      if s1.Some? {
        assert s1.value.valid == s2.value.valid && s1.value.invalid == s2.value.invalid;
        assert s1.value == Acc(s1.value.valid, s1.value.invalid, s1.value.rc);
        assert s2.value == Acc(s1.value.valid, s1.value.invalid, s2.value.rc);
        CasesIgnoreRc(s1.value.valid, s1.value.invalid, s1.value.rc, s2.value.rc, cases[1..], exp, strict, base, env);
      }
    }
  }

  lemma RefIgnoresRc(tests: Entries, r1: int, r2: int, ref: string, value: Value, env: Env)
    ensures var a, b := RefOutcome(tests, r1, ref, value, env), RefOutcome(tests, r2, ref, value, env);
      a.Some? == b.Some? && (a.Some? ==> a.value.0 == b.value.0)
  {
    match env.build(ref) {
      case None =>
      case Some((strict, base)) =>
        match env.readSchema(FilePart(ref)) {
          case None =>
          case Some(loaded) =>
            RefCasesIgnoreRc(tests, r1, r2, ref, Examples(loaded, ref), Declared(value, Valid), Declared(value, Invalid),
                             strict, base, env);
        }
    }
  }

  lemma RefCasesIgnoreRc(tests: Entries, r1: int, r2: int, ref: string, exs: seq<(string, Value)>, valids: seq<RawCase>,
                         invalids: seq<RawCase>, strict: Validator, base: Validator, env: Env)
    ensures var a, b := RefCases(tests, r1, ref, exs, valids, invalids, strict, base, env),
                        RefCases(tests, r2, ref, exs, valids, invalids, strict, base, env);
      a.Some? == b.Some? && (a.Some? ==> a.value.0 == b.value.0)
  {
    RunCasesIgnoreRc([], [], r1, r2, exs, valids, invalids, strict, base, env);
    StoreIgnoresRc(tests, ref, RunCases(Acc([], [], r1), exs, valids, invalids, strict, base, env),
                   RunCases(Acc([], [], r2), exs, valids, invalids, strict, base, env));
  }

  lemma StoreIgnoresRc(tests: Entries, ref: string, x: Option<Acc>, y: Option<Acc>)
    requires x.Some? == y.Some? && (x.Some? ==> x.value.valid == y.value.valid && x.value.invalid == y.value.invalid)
    ensures Store(tests, ref, x).Some? == Store(tests, ref, y).Some?
    ensures Store(tests, ref, x).Some? ==> Store(tests, ref, x).value.0 == Store(tests, ref, y).value.0
  {
    if x.Some? {
      assert Group(x.value) == Group(y.value);
    }
  }

  lemma RunCasesIgnoreRc(v: Entries, i: Entries, r1: int, r2: int, exs: seq<(string, Value)>, valids: seq<RawCase>,
                         invalids: seq<RawCase>, strict: Validator, base: Validator, env: Env)
    ensures var a, b := RunCases(Acc(v, i, r1), exs, valids, invalids, strict, base, env),
                        RunCases(Acc(v, i, r2), exs, valids, invalids, strict, base, env);
      a.Some? == b.Some? && (a.Some? ==> a.value.valid == b.value.valid && a.value.invalid == b.value.invalid)
  {
    ExamplesIgnoreRc(v, i, r1, r2, exs, strict, base, env);
    var e1, e2 := ExamplesFrom(Acc(v, i, r1), exs, strict, base, env), ExamplesFrom(Acc(v, i, r2), exs, strict, base, env);
    if e1.Some? {
      var a1, b1 := e1.value, e2.value;
      assert b1 == Acc(a1.valid, a1.invalid, b1.rc);
      CasesIgnoreRc(a1.valid, a1.invalid, a1.rc, b1.rc, valids, Valid, strict, base, env);
      var c1, c2 := CasesFrom(a1, valids, Valid, strict, base, env), CasesFrom(b1, valids, Valid, strict, base, env);
      if c1.Some? {
        var a2, b2 := c1.value, c2.value;
        assert b2 == Acc(a2.valid, a2.invalid, b2.rc);
        CasesIgnoreRc(a2.valid, a2.invalid, a2.rc, b2.rc, invalids, Invalid, strict, base, env);
      }
    }
  }

  lemma {:induction false} RefsIgnoreRc(tests: Entries, r1: int, r2: int, refs: Entries, env: Env)
    ensures var a, b := RefsFrom(tests, r1, refs, env), RefsFrom(tests, r2, refs, env);
      a.Some? == b.Some? && (a.Some? ==> a.value.0 == b.value.0)
    decreases |refs|
  {
    if refs != [] {
      RefIgnoresRc(tests, r1, r2, refs[0].0, refs[0].1, env);
      var a := RefOutcome(tests, r1, refs[0].0, refs[0].1, env);
      var b := RefOutcome(tests, r2, refs[0].0, refs[0].1, env);
      if a.Some? {
        RefsIgnoreRc(a.value.0, a.value.1, b.value.1, refs[1..], env);
      }
    }
  }

  /** A ref whose validators cannot be built or whose examples cannot be
      collected contributes no output and makes the exit code 2, and the
      refs after it are processed exactly as if it had not been there. */
  lemma FailedRefSkipped(tests: Entries, rc: int, ref: string, value: Value, rest: Entries, env: Env)
    requires 0 <= rc <= 2
    requires env.build(ref).None? || env.readSchema(FilePart(ref)).None?
    ensures var a, b := RefsFrom(tests, rc, [(ref, value)] + rest, env), RefsFrom(tests, rc, rest, env);
      && a.Some? == b.Some?
      && (a.Some? ==> a.value.0 == b.value.0 && a.value.1 == 2)
  {
    assert ([(ref, value)] + rest)[1..] == rest;
    assert RefsFrom(tests, rc, [(ref, value)] + rest, env) == RefsFrom(tests, 2, rest, env);
    RefsIgnoreRc(tests, 2, rc, rest, env);
    RefsRc(tests, 2, rest, env);
  }

  // ---------------------------------------------------------------------
  // The loops of `validate_doc`

  method EvaluateExamples(acc0: Acc, exs: seq<(string, Value)>, strict: Validator, base: Validator, env: Env)
    returns (r: Option<Acc>)
    ensures r == ExamplesFrom(acc0, exs, strict, base, env)
  {
    var acc := acc0;
    var i := 0;
    while i < |exs|
      invariant 0 <= i <= |exs|
      invariant ExamplesFrom(acc0, exs, strict, base, env) == ExamplesFrom(acc, exs[i..], strict, base, env)
    {
      assert exs[i..][1..] == exs[i + 1..];
      var (exKey, exPayload) := exs[i];
      var evaluated := EvaluateCase(exPayload, Str(""), false, exKey, Valid, strict, base, env.load, []);
      if evaluated.None? {
        acc := acc.(rc := Max(acc.rc, 2));
      } else {
        var (key, out, _) := evaluated.value;
        var checked := AddFormatWarning(out.(fromExamples := true), strict, base);
        if checked.None? {
          return None;
        }
        assert ExampleCase(exs[i], strict, base, env) == Filed(key, Promote(checked.value));
        acc := Record(acc, Valid, key, Promote(checked.value), env);
      }
      i := i + 1;
    }
    assert exs[i..] == [];
    return Some(acc);
  }

  method EvaluateDeclared(acc0: Acc, value: Value, exp: Expectation, strict: Validator, base: Validator, env: Env)
    returns (r: Option<Acc>)
    ensures r == CasesFrom(acc0, Declared(value, exp), exp, strict, base, env)
  {
    if !(value.Map? && HasKey(value.entries, GroupKey(exp))) {
      return Some(acc0);
    }
    var cases := IterCases(value, GroupKey(exp));
    var acc := acc0;
    var i := 0;
    while i < |cases|
      invariant 0 <= i <= |cases|
      invariant CasesFrom(acc0, cases, exp, strict, base, env) == CasesFrom(acc, cases[i..], exp, strict, base, env)
    {
      assert cases[i..][1..] == cases[i + 1..];
      var c := cases[i];
      if !c.fromExamples {
        var evaluated := EvaluateCase(c.payload, c.description, c.parseFlag, c.key, exp, strict, base, env.load, c.warnings);
        if evaluated.None? {
          acc := acc.(rc := Max(acc.rc, 2));
        } else {
          var (key, out, _) := evaluated.value;
          var checked := AddFormatWarning(out, strict, base);
          if checked.None? {
            return None;
          }
          assert DeclaredCase(c, exp, strict, base, env) == Filed(key, Promote(checked.value));
          acc := Record(acc, exp, key, Promote(checked.value), env);
        }
      }
      i := i + 1;
    }
    assert cases[i..] == [];
    return Some(acc);
  }

  /** The body of the loop of `validate_doc` for one ref. */
  method ValidateRef(tests: Entries, rc: int, ref: string, value: Value, env: Env) returns (r: Option<(Entries, int)>)
    ensures r == RefOutcome(tests, rc, ref, value, env)
  {
    var built := env.build(ref);
    if built.None? {
      return Some((tests, Max(rc, 2)));
    }
    var (strict, base) := built.value;
    var loaded := env.readSchema(FilePart(ref));
    if loaded.None? {
      return Some((tests, Max(rc, 2)));
    }
    var examples := CollectExamples(loaded.value, ref);
    var a1 := EvaluateExamples(Acc([], [], rc), examples, strict, base, env);
    if a1.None? {
      return None;
    }
    var a2 := EvaluateDeclared(a1.value, value, Valid, strict, base, env);
    if a2.None? {
      return None;
    }
    var a3 := EvaluateDeclared(a2.value, value, Invalid, strict, base, env);
    if a3.None? {
      return None;
    }
    var group: Entries := [];
    if a3.value.valid != [] {
      group := group + [("valid", Map(a3.value.valid))];
    }
    if a3.value.invalid != [] {
      group := group + [("invalid", Map(a3.value.invalid))];
    }
    assert group == Group(a3.value);
    var outTests := tests;
    if group != [] {
      outTests := Put(tests, ref, Map(group));
    }
    assert RunCases(Acc([], [], rc), examples, Declared(value, Valid), Declared(value, Invalid), strict, base, env) == a3;
    return Some((outTests, a3.value.rc));
  }

  /** `validate_doc`. */
  method ValidateDoc(doc: Entries, env: Env) returns (r: Option<(Entries, int)>)
    ensures r == ValidateDocSpec(doc, env)
    ensures r.Some? ==> 0 <= r.value.1 <= 2
  {
    var tests := Or(GetOr(doc, "tests", Null), Map([]));
    if !tests.Map? {
      return None;
    }
    var refs := tests.entries;
    var outTests: Entries := [];
    var rc := 0;
    var i := 0;
    while i < |refs|
      invariant 0 <= i <= |refs|
      invariant RefsFrom([], 0, refs, env) == RefsFrom(outTests, rc, refs[i..], env)
    {
      assert refs[i..][1..] == refs[i + 1..];
      var (ref, value) := refs[i];
      var step := ValidateRef(outTests, rc, ref, value, env);
      if step.None? {
        return None;
      }
      outTests, rc := step.value.0, step.value.1;
      i := i + 1;
    }
    assert refs[i..] == [];
    r := Some((outTests, rc));
    ValidateDocRc(doc, env);
  }

  // ---------------------------------------------------------------------
  // `validate_file`

  /** What `validate_file` ends with: the testspec was turned away with exit
      code 2 and nothing written, an exception escaped, or the cases ran and
      `written` is the document dumped (to stdout, or back into the file
      with `in_place`). */
  datatype FileOutcome = Rejected | Raised | Validated(rc: int, tests: Entries, written: Value)

  /** The document `validate_file` dumps: the recommended version and the
      output tests, or with `in_place` the original document with its keys
      kept, `version` added only if missing, and `tests` replaced. */
  function OutputDoc(doc: Entries, tests: Entries, compat: Version.Compat, inPlace: bool): (out: Value)
    ensures out.Map?
    ensures Lookup(out.entries, "tests") == Some(Map(tests))
    ensures !inPlace ==> out == Map([("version", Str(Version.RecommendedTestspecVersion(compat))), ("tests", Map(tests))])
    ensures inPlace ==> forall k :: k != "version" && k != "tests" ==> Lookup(out.entries, k) == Lookup(doc, k)
    ensures inPlace && HasKey(doc, "version") ==> Lookup(out.entries, "version") == Lookup(doc, "version")
    ensures inPlace && !HasKey(doc, "version") ==>
      Lookup(out.entries, "version") == Some(Str(Version.RecommendedTestspecVersion(compat)))
  {
    var version := Str(Version.RecommendedTestspecVersion(compat));
    if inPlace then Map(Put(SetDefault(doc, "version", version), "tests", Map(tests)))
    else
      var out: Entries := [("version", version), ("tests", Map(tests))];
      assert IndexOf(out[1..], "tests") == Some(0);
      assert out[0].0 != "tests" by { assert |out[0].0| == 7 && |"tests"| == 5; }
      Map(out)
  }

  /** Whether the testspec passes the gate: it loads, it conforms to the
      testspec schema, and its `version` is supported. */
  predicate Admitted(loaded: Option<Value>, schemaValid: Value -> bool, parseVersion: Value -> Option<Version.SemVer>,
                     compat: Version.Compat)
  {
    && loaded.Some?
    && schemaValid(Or(loaded.value, Map([])))
    && (var doc := Or(loaded.value, Map([]));
        !doc.Map? || Version.CheckSpecCompat(parseVersion(GetOr(doc.entries, "version", Str(""))), compat).0)
  }

  /** `validate_file`, given the loaded testspec (`None` when reading or
      loading it raises), the testspec schema check, and what
      `str(version).strip()` parses to as a semantic version.  Failing the
      gate gives exit code 2 before any case is evaluated or anything is
      written. */
  method ValidateFile(loaded: Option<Value>, schemaValid: Value -> bool, parseVersion: Value -> Option<Version.SemVer>,
                      compat: Version.Compat, env: Env) returns (r: FileOutcome)
    ensures r.Rejected? <==> !Admitted(loaded, schemaValid, parseVersion, compat)
    ensures r.Validated? ==>
      var doc := Or(loaded.value, Map([]));
      && doc.Map?
      && ValidateDocSpec(doc.entries, env) == Some((r.tests, r.rc))
      && r.written == OutputDoc(doc.entries, r.tests, compat, env.inPlace)
      && 0 <= r.rc <= 2
    ensures r.Raised? ==>
      var doc := Or(loaded.value, Map([]));
      !doc.Map? || ValidateDocSpec(doc.entries, env).None?
  {
    if loaded.None? {
      return Rejected;
    }
    var doc := Or(loaded.value, Map([]));
    if !schemaValid(doc) {
      return Rejected;
    }
    if !doc.Map? {
      return Raised;
    }
    var (ok, _) := Version.CheckSpecCompat(parseVersion(GetOr(doc.entries, "version", Str(""))), compat);
    if !ok {
      return Rejected;
    }
    var result := ValidateDoc(doc.entries, env);
    if result.None? {
      return Raised;
    }
    var (outTests, rc) := result.value;
    r := Validated(rc, outTests, OutputDoc(doc.entries, outTests, compat, env.inPlace));
  }

}
