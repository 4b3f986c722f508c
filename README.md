# TeDS core, modelled in Dafny

TeDS (Test-Driven Schema development) checks JSON Schema / OpenAPI schemas
against example instances.

A *testspec* file lists the cases:
- Under `tests`, it maps each schema reference (`file.yaml#/components/schemas/User`) to a group.
- Each group has `valid` and `invalid` cases.
- Each case is either an explicit payload or a case key that is itself parsed as YAML.

For each case TeDS does the following:
1. It runs two validators against the case: a strict one that enforces `format` and a lenient one that ignores it.
2. It classifies the case as SUCCESS, WARNING or ERROR against the case's expectation.
3. It warns when a case passes only because `format` is not enforced.
4. It filters the cases by output level and derives an exit code 0, 1 or 2.

Around this engine sit a number of parts, all of which are modelled here:
- a persistent schema cache keyed by file hash and JSON Pointer;
- JSON Pointer and jq-path helpers;
- a testspec version gate;
- a generator that seeds test groups from a schema's `examples`;
- a report layer that counts results per spec.

The project has these modules, in dependency order:

| file | module | what it models |
|---|---|---|
| `wrappers.dfy` | `Wrappers` | `Option` and `Result` |
| `json.dfy` | `Json` | YAML/JSON values; ordered mappings as sequences of key/value pairs (Python dicts keep insertion order); `get`, `setdefault`, item assignment, truthiness |
| `text.dfy` | `Text` | `str.lstrip`/`rstrip`/`strip`, `split`, `join`, `replace`, `str(n)`, string order and `sorted(set(...))` |
| `pointer.dfy` | `Pointer` | the `~1`/`~0` token decoding of section 4 of RFC 6901 |
| `refs.dfy` | `Refs` | `teds_core/refs.py` |
| `version.dfy` | `Version` | `teds_core/version.py` |
| `validate.dfy` | `Validate` | `teds_core/validate.py` |
| `cache.dfy` | `Cache` | `teds_core/cache.py` |
| `generate.dfy` | `Generate` | `teds_core/generate.py` |
| `report.dfy` | `Report` | `teds_core/report.py` |

## How the modelling works

**Pure and looping code.** Pure Python helpers become functions. Code that loops becomes a `method` with a `while` loop, and its `ensures` equates the result with a specification function. The properties the source promises are then proved as lemmas about that function. Such loops include `_iter_cases`, `validate_doc`, `collect_examples`, `resolve_schema_node`, `_extract_pointer`, pre-indexing, `_compute_counts`, `build_context`, `generate_from` and `run_report_per_spec`.

**The cache.** `TedsSchemaCache` is the class `Cache.SchemaCache`. Its fields are the parts of `cache_data` plus `dirty`, and every method states its whole new state.

**Foreign calls as oracles.**
- A validator is a function from an instance to the errors `iter_errors` yields, in order, and whether the iteration then raises an exception other than a validation error. The code consumes that iteration three ways, and the model follows each: `validate` raises the first error, and the exception only when no error comes first; `list(...)` raises whenever the iteration does; `any(...)` stops at the first error.
- The YAML loader is a function from text to a value, or to nothing when it raises.
- `build_validator_for_ref` and the reading of schema files are likewise functions in `Validate.Env`.
- `semver` parsing and the testspec-schema check are parameters.
- File hashes, `stat` results, clock readings, cache-file content and write success are inputs.

**Exceptions.** An exception that escapes is an `Option`/`Result` failure. An exception that the code catches is the branch the code takes.

## Model

| member | source | states |
|---|---|---|
| Json.GetOr | teds_core/validate.py:23 | `dict.get(k, default)`: the stored value when the key is present, the default otherwise |
| Json.Lookup | teds_core/validate.py:23 | some value exactly when the key is present, and it is the value stored under that key |
| Json.Put | teds_core/validate.py:233 | `d[k] = v`: `k` now maps to `v`, every other key keeps its value, an existing key keeps its position, a new key goes last |
| Json.PutUnique | teds_core/validate.py:233 | assignment never duplicates a key |
| Json.SetDefault | teds_core/generate.py:15-16 | `setdefault`: unchanged when the key exists, otherwise the pair is appended; no other key changes |
| Text.SplitJoin | teds_core/refs.py:41 | `str.split` then `join` with the same separator gives back the parts |
| Text.ParseNatToString | teds_core/refs.py:82 | the decimal text of a number reads back as that number |
| Text.NatToStringInjective | teds_core/refs.py:82 | different indices print differently |
| Text.SortedSetSpec | teds_core/validate.py:110 | `sorted({...})` is strictly ascending and holds exactly the collected elements |
| Text.SortedSetDeterministic | teds_core/validate.py:110 | the sorted set depends only on which elements occur, not on their order or repetition |
| Pointer.UnescapeEscape | teds_core/refs.py:42 | decoding `~1` before `~0` undoes the RFC 6901 encoding of every key |
| Pointer.UnescapePlain | teds_core/cache.py:289 | a token without `~` decodes to itself |
| Pointer.UnescapeOrder | teds_core/refs.py:42 | `~01` decodes to `~1` and not to `/`, because `~1` is replaced first |
| Refs.FilePart | teds_core/refs.py:57 | `partition("#")`: the part before the first `#`, or the whole reference without `#` |
| Refs.Fragment | teds_core/refs.py:57 | the part after the first `#` (empty without `#`); file part, `#` and fragment rebuild the reference |
| Refs.SplitJsonPointer | teds_core/refs.py:37-42 | no segments exactly when the fragment is empty after stripping leading `/` |
| Refs.SplitJsonPointerRoot | teds_core/refs.py:38-40 | `""` and `/` give no segments |
| Refs.UnescapeAllEscapeAll | teds_core/refs.py:42 | decoding every token undoes encoding every key |
| Refs.SplitJsonPointerRoundTrip | teds_core/refs.py:37-42 | splitting `/` + the escaped keys joined by `/` gives back the keys |
| Refs.SplitJsonPointerPlainExample | teds_core/refs.py:37-42 | `/a/b` splits into `a`, `b` |
| Refs.SplitJsonPointerEscapedExample | teds_core/refs.py:37-42 | `/a~1b/~0c` splits into `a/b`, `~c` |
| Refs.JqSegmentShape | teds_core/refs.py:45-46 | a segment is written `.seg` exactly when it matches `^[A-Za-z_][A-Za-z0-9_]*$`, else `.["seg"]` (told apart by the second character) |
| Refs.JqSegmentInjective | teds_core/refs.py:45-46 | different segments give different jq segments |
| Refs.JqSegmentExamples | teds_core/refs.py:45-46 | `ok` gives `.ok`, `not-ok` gives `.["not-ok"]` |
| Refs.JqPath | teds_core/refs.py:53 | the concatenation is empty exactly when there are no segments |
| Refs.JqExamplesPrefix | teds_core/refs.py:49-53 | the prefix is `""` exactly when the fragment has no segments |
| Refs.JqPathIdentifiers | teds_core/refs.py:53 | for identifier segments the prefix is `.` + the segments joined by `.` |
| Refs.JqExamplesPrefixIdentifiers | teds_core/refs.py:49-53 | the pointer `/a/b` of identifier keys has prefix `.a.b` |
| Refs.JoinFragmentSplit | teds_core/refs.py:86-88 | the joined fragment splits into the parent's segments plus the decoded child |
| Refs.JoinUnderRoot | teds_core/refs.py:86-88 | under an empty (or all-`/`) parent the joined fragment is the child alone |
| Refs.JoinUnderParent | teds_core/refs.py:86-88 | under a non-empty parent the child becomes one more segment |
| Refs.Walk | teds_core/refs.py:62-67 | a step from a non-mapping finds nothing |
| Refs.WalkStopsAtList | teds_core/refs.py:63 | the traversal never steps into a list |
| Refs.WalkAppend | teds_core/refs.py:62-67 | walking `a + b` is walking `a` and then `b` from where `a` ended |
| Refs.ResolveSchemaNode | teds_core/refs.py:56-68 | the loop reaches the node the segments lead to through mappings, or `None` at the first missing key or non-mapping; the fragment has its leading `/` removed |
| Refs.ExampleKeysDistinct | teds_core/refs.py:79-82 | different indices give different keys |
| Refs.KeyedExamples | teds_core/refs.py:81-82 | one pair per example, in order, example `i` under `<base>[i]` |
| Refs.KeyedExamplesDistinct | teds_core/refs.py:81-82 | no two examples share a key |
| Refs.ExamplesSpec | teds_core/refs.py:71-83 | nothing unless the node is a mapping with a list `examples`; otherwise every example in order under `<prefix>.examples[i]`, no key twice |
| Refs.KeyExamples | teds_core/refs.py:79-83 | the loop produces `KeyedExamples` |
| Refs.CollectExamples | teds_core/refs.py:71-83 | the method returns what `collect_examples` returns |
| Refs.NetworkPolicy.constructor | teds_core/refs.py:92-112 | network starts refused; timeout and size limit are the environment overrides or 5.0 s and 5 MiB |
| Refs.NetworkPolicy.SetNetworkPolicy | teds_core/refs.py:115-121 | the allow flag is always set; timeout and size limit change only when given |
| Version.ToInt | teds_core/version.py:26-28 | `int(v)`: an integer is itself; booleans are 0 and 1; a float is truncated toward zero; a string is read by `IntOfText`; `None`, lists and mappings raise |
| Version.IntOfDigitText | teds_core/version.py:26-28 | `int(s)` reads decimal digits, single underscores allowed between digits, as the number the digits spell |
| Version.IntOfSignedDigitText | teds_core/version.py:26-28 | a leading `+` keeps the value and a leading `-` negates it |
| Version.IntOfDecimalText | teds_core/version.py:26-28 | a plain run of decimal digits reads as its value |
| Version.IntOfTextSpaces | teds_core/version.py:26-28 | whitespace around the text changes nothing |
| Version.IntOfTextUnderscore | teds_core/version.py:26-28 | an underscore between two runs of digits is dropped |
| Version.IntOfTextRejects | teds_core/version.py:26-31 | a character other than whitespace, a sign, a digit or `_` makes `int()` raise, so the fallback is used |
| Version.LoadCompat | teds_core/version.py:17-31 | no manifest, or a truthy non-mapping one, gives the fallback `(1, 0, 0)` |
| Version.RecommendedDefaultsToMax | teds_core/version.py:28 | the recommended minor defaults to the maximum minor when absent |
| Version.NullRecommendedFallsBack | teds_core/version.py:28-31 | an explicit `recommended_minor: null` makes `int(None)` raise, so the whole fallback is used |
| Version.CheckSpecCompat | teds_core/version.py:79-88 | INVALID when unparsable; MAJOR_MISMATCH on another major, before the minor is looked at; MINOR_TOO_NEW above the maximum minor; accepted exactly otherwise, with no issue |
| Version.PatchIgnored | teds_core/version.py:84-88 | the patch number never changes the verdict |
| Version.AcceptedRangeIsDownwardClosed | teds_core/version.py:84-88 | a lower minor of an accepted major is accepted too |
| Version.FallbackAcceptsOnlyOneZero | teds_core/version.py:31 | with the fallback manifest exactly `1.0.x` is accepted |
| Version.SupportedRangeReadsBack | teds_core/version.py:64-66 | the range string is `M.0-M.N` and splits back into its numbers |
| Version.RecommendedVersionReadsBack | teds_core/version.py:35 | `RECOMMENDED_TESTSPEC_VERSION` has three parts reading back as major, recommended minor, 0 |
| Validate.NameInjective | teds_core/validate.py:142-147 | the three result strings are distinct |
| Validate.VisibleByLevel | teds_core/validate.py:181-186 | `all` shows everything, `warning` exactly WARNING and ERROR, `error` exactly ERROR |
| Validate.StringWarnings | teds_core/validate.py:32-37 | exactly the string warnings survive; generated (dict) and other entries are dropped |
| Validate.StringWarningsAllStrings | teds_core/validate.py:32-35 | a list of strings is kept whole and in order |
| Validate.CollectStringWarnings | teds_core/validate.py:31-37 | the loop computes `StringWarnings` |
| Validate.CaseOf | teds_core/validate.py:29-40 | a non-mapping entry gives `(None, "", False, key, False, [])`; a mapping gives its payload, `description or ""` (non-empty exactly when the description is truthy), the truthiness of `parse_payload` and `from_examples`, and its string warnings |
| Validate.ReadCase | teds_core/validate.py:29-40 | the method reads one entry as `CaseOf` |
| Validate.Cases | teds_core/validate.py:20-40 | one case per item of the group in order; nothing for a missing or non-mapping group or test value |
| Validate.IterCases | teds_core/validate.py:20-40 | the loop yields `Cases` |
| Validate.PrepareCaseSpec | teds_core/validate.py:43-60 | fails exactly when the text it loads (the case key without a payload, a string payload under `parse_payload`) does not load; `payload` is echoed as given; `parse_payload: true` is echoed exactly for a string payload under the flag; a loaded instance is echoed as `payload_parsed`; a payload used as it is is the instance and echoes nothing parsed |
| Validate.ValidateRaw | teds_core/validate.py:63-68 | raises exactly when the iteration raises before any error; ok exactly when it yields no error and does not raise; a message exactly on rejection, the first error's |
| Validate.StrOr | teds_core/validate.py:143 | `a or b` on optional strings: `a` when it is a non-empty string, `b` in every other case |
| Validate.FormatsSpec | teds_core/validate.py:110 | every `format` error's format is collected and nothing else is |
| Validate.FormatsPresent | teds_core/validate.py:110-111 | the sorted formats are empty exactly when there is no `format` error |
| Validate.FormatNoteSpec | teds_core/validate.py:110-111 | ` (format: a, b)` over the sorted formats when there is a `format` error, `""` otherwise |
| Validate.DivergenceMessage | teds_core/validate.py:158-164 | the explanation starts with `UNEXPECTEDLY VALID` and says more |
| Validate.AssembleOutput | teds_core/validate.py:71-92 | `message` is the error message; `validation_message` only when there is no error message; the other fields copied; no warnings yet |
| Validate.RenderNeverBoth | teds_core/validate.py:86-89 | an output case never has both `message` and `validation_message` |
| Validate.RenderDescription | teds_core/validate.py:79-80 | `description` appears exactly when it is non-empty |
| Validate.Judge | teds_core/validate.py:133-155 | raises exactly when strict raises before an error, strict rejects and lenient raises before an error, or an `invalid` case only lenient accepts has its strict errors listed and the listing raises; observed-ok exactly when either validator accepts (lenient is asked only after a strict rejection); messages are the first errors; the divergence text is built when strict rejects and lenient accepts |
| Validate.ClassifyValid | teds_core/validate.py:141-144 | SUCCESS exactly when either validator accepts; on ERROR the message is strict's or else lenient's; never WARNING, no `validation_message` |
| Validate.ClassifyInvalid | teds_core/validate.py:145-164 | SUCCESS exactly when both reject, with the rejection as `validation_message`; otherwise ERROR with the divergence explanation when only strict rejects, else plain `UNEXPECTEDLY VALID` |
| Validate.EvaluateCase | teds_core/validate.py:123-169 | the case key is returned; the error count is 1 exactly on ERROR; user warnings are attached as strings |
| Validate.EvaluateRaises | teds_core/validate.py:133-155 | evaluation raises exactly when parsing the instance fails, strict raises, strict rejects and lenient raises, or listing strict's errors for an `invalid` case only lenient accepts raises |
| Validate.EvaluateValid | teds_core/validate.py:139-144 | a valid case succeeds exactly when the strict or the lenient validator accepts; on ERROR the message is the first rejection, strict's first |
| Validate.EvaluateInvalid | teds_core/validate.py:145-164 | an invalid case succeeds exactly when both reject, carrying `validation_message`; otherwise the message starts with `UNEXPECTEDLY VALID` and explains more exactly when strict rejects and lenient accepts |
| Validate.KeyAsPayload | teds_core/validate.py:44-48 | without a payload the parsed key is the instance, the output has no `payload` and carries `payload_parsed` |
| Validate.PayloadEcho | teds_core/validate.py:49-59 | an explicit payload is echoed; under `parse_payload` a string is parsed and flagged, otherwise it is the instance itself |
| Validate.AddFormatWarning | teds_core/validate.py:99-111 | the check raises exactly when listing strict's errors raises, or strict reported a `format` error and lenient raises before its first error |
| Validate.AddFormatWarningEffect | teds_core/validate.py:99-120 | when it does not raise, result and all other fields stay; the `format-divergence` entry is appended exactly when the result is SUCCESS, there is an instance, strict reports a `format` error and lenient reports nothing |
| Validate.FormatWarningNamesFormats | teds_core/validate.py:110-113 | the warning names every failing format, sorted and without repetition |
| Validate.InvalidSuccessCanEscape | teds_core/validate.py:236-252 | an `invalid` case both validators reject is SUCCESS even when strict's iteration raises after its errors, and the warning check on it then raises out of `validate_doc` |
| Validate.WarningChecksRawString | teds_core/validate.py:102 | when a `parse_payload` string parses to `null`, the warning check validates the raw string |
| Validate.Promote | teds_core/validate.py:230-231 | SUCCESS with warnings becomes WARNING; ERROR is never downgraded; nothing else changes |
| Validate.Record | teds_core/validate.py:232-258 | the exit code is raised to 1 on ERROR; a hidden case is not stored unless in place; a shown case is stored under its key, rendered, in its own expectation's group, and the other group is untouched |
| Validate.Apply | teds_core/validate.py:219-227 | an escaping exception stops `validate_doc`; otherwise the exit code grows, at most to 2, and a failed evaluation makes it 2 |
| Validate.ApplyIgnoresRc | teds_core/validate.py:218-258 | which cases are stored does not depend on the exit code so far |
| Validate.ExamplesRc | teds_core/validate.py:218-234 | over the examples the exit code never decreases and stays within 2 |
| Validate.CasesRc | teds_core/validate.py:236-258 | over the declared cases the exit code never decreases and stays within 2 |
| Validate.RunCasesRc | teds_core/validate.py:218-258 | the same over all cases of a ref |
| Validate.RefRc | teds_core/validate.py:194-265 | the same for one ref, build and collection failures included |
| Validate.RefsRc | teds_core/validate.py:194-265 | the same over all refs |
| Validate.ValidateDocRc | teds_core/validate.py:189-267 | `validate_doc` returns an exit code in 0..2 |
| Validate.ExamplesIgnoreRc | teds_core/validate.py:218-234 | the stored examples do not depend on the exit code so far |
| Validate.CasesIgnoreRc | teds_core/validate.py:236-258 | the stored declared cases do not depend on the exit code so far |
| Validate.RunCasesIgnoreRc | teds_core/validate.py:218-258 | the same over all cases of a ref |
| Validate.StoreIgnoresRc | teds_core/validate.py:260-265 | storing a ref's groups depends only on the collected cases |
| Validate.RefCasesIgnoreRc | teds_core/validate.py:218-265 | a ref's output does not depend on the exit code so far |
| Validate.RefIgnoresRc | teds_core/validate.py:194-265 | the same including build and collection failures |
| Validate.RefsIgnoreRc | teds_core/validate.py:194-265 | the output tests do not depend on the exit code before a ref |
| Validate.FailedRefSkipped | teds_core/validate.py:195-216 | a ref whose validators cannot be built or whose examples cannot be collected makes the code 2, adds nothing, and later refs are still evaluated |
| Validate.EvaluateExamples | teds_core/validate.py:218-234 | the example loop computes `ExamplesFrom` |
| Validate.EvaluateDeclared | teds_core/validate.py:236-258 | the declared-case loop computes `CasesFrom` |
| Validate.ValidateRef | teds_core/validate.py:194-265 | one iteration of the ref loop computes `RefOutcome` |
| Validate.ValidateDoc | teds_core/validate.py:189-267 | `validate_doc` computes `ValidateDocSpec`, with code in 0..2 |
| Validate.OutputDoc | teds_core/validate.py:328-332 | the output carries the result tests; not in place it is the recommended version and the tests; in place every other key, and an existing version, are preserved, and a missing version becomes the recommended one |
| Validate.ValidateFile | teds_core/validate.py:270-337 | the file is rejected (code 2, `validate_doc` not run, nothing written) exactly when it cannot be read, fails the schema check or fails the version gate; otherwise the result is `validate_doc`'s, written as `OutputDoc` |
| Cache.PointerParts | teds_core/cache.py:281-290 | no tokens exactly when the pointer is nothing but `#` and `/` |
| Cache.Extracted | teds_core/cache.py:273-300 | `#/` and `#` give the whole document; a missing step fails; a found mapping target is returned as it is, and a found non-mapping target becomes `{}` |
| Cache.RootChecksRedundant | teds_core/cache.py:277-283 | the explicit root checks give what the general path gives |
| Cache.LeadingMarksIgnored | teds_core/cache.py:281 | every leading `#` and `/` is stripped, not only the `#/` prefix |
| Cache.ExtractedAgreesWithRefs | teds_core/cache.py:281-300 | for a plain fragment the cache walks the same tokens as `split_json_pointer` and finds the same mapping |
| Cache.ExtractCannotIndexLists | teds_core/cache.py:294-298 | a pointer into a list is not found |
| Cache.ExtractPointer | teds_core/cache.py:273-300 | the method computes `Extracted` |
| Cache.DecodeTokens | teds_core/cache.py:286-290 | the decoding loop unescapes every token |
| Cache.WalkTokens | teds_core/cache.py:293-298 | the traversal loop computes the walk |
| Cache.ChildKeyInjective | teds_core/cache.py:324 | different child names give different cache keys |
| Cache.CacheChildren | teds_core/cache.py:322-328 | caching a container's children touches only keys under that container |
| Cache.CacheGroupFrame | teds_core/cache.py:314-328 | a group leaves every key outside its container as it was |
| Cache.ContainersDisjoint | teds_core/cache.py:316-337 | no key lies under both containers |
| Cache.PreindexedFrame | teds_core/cache.py:302-350 | pre-indexing leaves every pointer outside both containers as it was |
| Cache.CacheChildrenLast | teds_core/cache.py:322-328 | a mapping-valued child is cached with its schema |
| Cache.CacheChildrenSkips | teds_core/cache.py:323 | a non-mapping child is not cached |
| Cache.PreindexedComponents | teds_core/cache.py:309-328 | a mapping of schemas caches `#/components/schemas` and every mapping-valued child; other children keep what they had |
| Cache.PreindexedNonMappingComponents | teds_core/cache.py:314-331 | a truthy non-mapping `schemas` caches only the container |
| Cache.PreindexedDefinitions | teds_core/cache.py:334-348 | a mapping of definitions caches `#/definitions` and every mapping-valued child; a non-mapping child keeps what it had |
| Cache.PreindexedNonMappingDefinitions | teds_core/cache.py:334-345 | a truthy non-mapping `definitions` caches only the container, and every key under it keeps what it had |
| Cache.PreindexedEmpty | teds_core/cache.py:314-336 | with empty or missing containers nothing changes |
| Cache.DollarDefsNotIndexed | teds_core/cache.py:302-350 | `$defs` is not pre-indexed |
| Cache.ChildKeyParts | teds_core/cache.py:324 | a pre-indexed key reads back as the container's tokens plus the name split at `/` |
| Cache.PreIndexedKeyQuirk | teds_core/cache.py:324 | a child name containing `/` is cached under a key that does not point at it |
| Cache.PreemptivelyCacheCommonPointers | teds_core/cache.py:302-350 | the method computes `Preindexed` |
| Cache.CacheCommonGroup | teds_core/cache.py:310-331 | one `try` block computes `CacheGroup` |
| Cache.Dependencies | teds_core/cache.py:356-366 | every collected reference starts with `#/` |
| Cache.OwnRefCollected | teds_core/cache.py:358-361 | a mapping's own local `$ref` is collected |
| Cache.ChildDependenciesIncluded | teds_core/cache.py:362-366 | a reference found in any value or item is collected for the parent |
| Cache.ExtractDependencies | teds_core/cache.py:352-369 | the method returns `Dependencies` |
| Cache.CollectRefs | teds_core/cache.py:356-366 | the recursion appends exactly `Dependencies` to the list it is given |
| Cache.LoadSchema | teds_core/cache.py:226-271 | fails exactly when parsing fails or the pointer is not found; on success returns the extracted fragment, sets `dirty` and caches the pointer; touches no other hash; an existing entry keeps its metadata; the new entry is created before extraction |
| Cache.LoadThenValid | teds_core/cache.py:240-265 | after a successful load the entry is valid exactly when it was new or its metadata matches the file |
| Cache.LoadKeepsCachedPointer | teds_core/cache.py:259-263 | an already-cached pointer outside the pre-indexed containers is never overwritten |
| Cache.PreindexedGrows | teds_core/cache.py:302-350 | pre-indexing never removes a pointer |
| Cache.LoadKeepsPointers | teds_core/cache.py:254-263 | a load never removes a pointer of the entry |
| Cache.ContainerMissDiffersFromHit | teds_core/cache.py:300-319 | with a truthy non-mapping `schemas`, requesting `#/components/schemas` returns `{}` but caches the container itself |
| Cache.TotalPointersRemove | teds_core/cache.py:137-140 | the pointer total splits into one entry's pointers and the rest |
| Cache.SchemaCache.constructor | teds_core/cache.py:47-52 | empty `cache_data`, not dirty |
| Cache.SchemaCache.InitEmptyCache | teds_core/cache.py:166-174 | version `1.0`, both timestamps now, no entries |
| Cache.SchemaCache.Load | teds_core/cache.py:54-72 | a stored cache of the current version is taken as is; a missing file, an unreadable one, one that is not valid JSON, or another version gives a fresh empty cache, dirty; a file that is not valid UTF-8 or decodes to a non-object makes `load` raise |
| Cache.SchemaCache.Save | teds_core/cache.py:74-88 | acts only when dirty: stamps `last_updated`, writes, clears `dirty`; a failed write raises and stays dirty |
| Cache.SchemaCache.Clear | teds_core/cache.py:130-133 | no entries, and dirty |
| Cache.SchemaCache.InvalidateFile | teds_core/cache.py:121-128 | removes only that hash's entry; dirty only when it existed; a missing or unreadable file raises |
| Cache.SchemaCache.GetStats | teds_core/cache.py:135-153 | files is the number of entries, pointers the sum of their pointer counts |
| Cache.SchemaCache.LoadAndCacheSchema | teds_core/cache.py:226-271 | the method computes `LoadSchema` on the cache's state |
| Cache.SchemaCache.GetSchema | teds_core/cache.py:90-119 | a missing file raises; a valid entry returns the stored schema and changes nothing; otherwise the file is loaded and cached |
| Generate.EnsureGroup | teds_core/generate.py:13-17 | a non-mapping becomes `{valid: None, invalid: None}`; a mapping keeps every key and value and gains only what is missing |
| Generate.EnsureGroupComplete | teds_core/generate.py:15-16 | a group with both keys is unchanged |
| Generate.EnsureGroupIdempotent | teds_core/generate.py:13-17 | ensuring twice is ensuring once |
| Generate.Missing | teds_core/generate.py:67 | only examples whose key is not yet a case |
| Generate.Seeded | teds_core/generate.py:68-69 | each missing example becomes `{payload, from_examples: true}`, in order |
| Generate.Merge | teds_core/generate.py:61-71 | the existing cases stay, in order, after the added ones |
| Generate.MergeExamples | teds_core/generate.py:61-71 | the reversed `insert(0, ...)` loop computes `Merge` |
| Generate.MissingKeys | teds_core/generate.py:67-69 | a key is seeded exactly when it is an example key and not yet a case |
| Generate.MergeKeys | teds_core/generate.py:61-71 | the merged keys are the old keys plus the example keys |
| Generate.MergeKeepsExisting | teds_core/generate.py:67-69 | an existing case is untouched |
| Generate.SeededLookup | teds_core/generate.py:68-69 | a missing example is seeded with its payload |
| Generate.MergeAddsMissing | teds_core/generate.py:61-71 | every missing example ends up as `{payload, from_examples: true}` |
| Generate.MissingNone | teds_core/generate.py:67 | nothing is missing when every example is already a case |
| Generate.MergeIdempotent | teds_core/generate.py:61-71 | merging the same examples again changes nothing |
| Generate.GroupFor | teds_core/generate.py:56-71 | the group has both keys; with examples `valid` is the merge; every other key is the ensured group's |
| Generate.NoExamplesKeepsValid | teds_core/generate.py:59-60 | without examples `valid` is left as it was |
| Generate.GroupForIdempotent | teds_core/generate.py:56-71 | regenerating a group changes nothing |
| Generate.ChildRefInjective | teds_core/generate.py:54-55 | different child keys give different refs |
| Generate.ChildRefShape | teds_core/generate.py:54-55 | the ref is `<file>#/<parent>/<child>`, or `<file>#/<child>` under the root |
| Generate.ChildStep | teds_core/generate.py:56-71 | one child sets its own group and no other |
| Generate.ChildrenKeepOthers | teds_core/generate.py:53-57 | refs of no child are untouched |
| Generate.ChildrenGroups | teds_core/generate.py:53-71 | every child's ref holds its generated group |
| Generate.ChildrenRefs | teds_core/generate.py:53-57 | the refs afterwards are the old ones plus one per child |
| Generate.StartDoc | teds_core/generate.py:21-29 | a missing file is `{}`; an unreadable one raises; an empty one is `{}`; a non-mapping one fails |
| Generate.GenerateSpec | teds_core/generate.py:20-79 | fails exactly when the testspec cannot be read or is not a mapping, the parent cannot be resolved, or writing fails; otherwise only `tests` changes, to the generated groups |
| Generate.GenerateFrom | teds_core/generate.py:20-79 | the method computes `GenerateSpec` |
| Generate.GenerateChildren | teds_core/generate.py:53-71 | the child loop computes `ChildrenFrom` |
| Generate.NonMappingTestsReplaced | teds_core/generate.py:30-33 | a non-mapping `tests` is replaced by `{}` |
| Generate.NonMappingParentWritesBack | teds_core/generate.py:43-51 | a non-mapping parent writes the document back with no group added |
| Generate.EveryChildHasItsGroup | teds_core/generate.py:53-71 | each direct child key gets its group under its ref |
| Generate.OtherRefsUntouched | teds_core/generate.py:53-57 | groups of other refs are untouched |
| Generate.OneGroupPerChild | teds_core/generate.py:53-57 | the refs afterwards are the old ones plus exactly one per child key |
| Generate.OneGroupPerKey | teds_core/generate.py:53-57 | the same for any list of entries and examples |
| Generate.SettledFixed | teds_core/generate.py:53-71 | generating over settled groups changes nothing |
| Generate.RunSettles | teds_core/generate.py:53-71 | after one run the groups are settled |
| Generate.GenerateTwice | teds_core/generate.py:20-79 | generating again from the written file writes the same document |
| Report.Bucket | teds_core/report.py:36 | `(c or {}).get(...)` raises exactly on a truthy non-mapping case |
| Report.BucketByResult | teds_core/report.py:36-42 | ERROR and WARNING are counted as such; a falsy case or one without `result` counts as success |
| Report.One | teds_core/report.py:37-42 | each case counts once |
| Report.CasesIn | teds_core/report.py:33-34 | a non-mapping group has no cases |
| Report.CasesFromTally | teds_core/report.py:35-42 | counting cases adds their tally, one per case, and fails exactly on a truthy non-mapping case |
| Report.GroupFromTally | teds_core/report.py:32-42 | a group adds its `valid` and `invalid` cases, one count each |
| Report.TestsFromTally | teds_core/report.py:29-43 | the totals count every case of every group exactly once |
| Report.EmptyGroupCountsNothing | teds_core/report.py:33-34 | missing or non-mapping groups contribute zero |
| Report.CountCases | teds_core/report.py:35-42 | the inner loop computes `CasesFrom` |
| Report.ComputeCounts | teds_core/report.py:28-43 | `_compute_counts` computes `CountsOf` |
| Report.TotalsOf | teds_core/report.py:82 | `specs` is the number of inputs |
| Report.SumCountsAppend | teds_core/report.py:83-85 | summing inputs distributes over concatenation |
| Report.TotalsAppend | teds_core/report.py:80-85 | totals are key-wise sums |
| Report.TotalsOne | teds_core/report.py:80-85 | one input's totals are its counts and `specs` 1 |
| Report.FoldTotalsSum | teds_core/report.py:83-85 | the loop adds the key-wise sums to the starting totals |
| Report.BuildContext | teds_core/report.py:80-97 | inputs kept, totals key-wise sums, spec range and recommendation from the version gate |
| Report.ValidateDocFnRc | teds_core/report.py:140-142 | the modelled `validate_doc` gives codes in 0..2 |
| Report.SpecStep | teds_core/report.py:112-145 | a spec is a hard failure exactly when it is not admitted |
| Report.Outputs | teds_core/report.py:150-156 | one output per input |
| Report.OutputsIndex | teds_core/report.py:152-155 | output `i` is input `i`'s path with its own one-input context |
| Report.InputsFromShape | teds_core/report.py:111-145 | the inputs are the admitted specs in order; hard failure exactly when some spec was not admitted; codes within 0..2 |
| Report.MaxRcBounds | teds_core/report.py:151-156 | the fold is the largest code |
| Report.ReportRc | teds_core/report.py:100-157 | code 2 on any hard failure, else the largest spec code: at least every spec's code and either 0 or some spec's code, within 0..2; one output per admitted spec, in order; rejected specs produce none |
| Report.AllRejected | teds_core/report.py:135-138 | when no spec passes the gate there is no output and the code is 2 |
| Report.AllRejectedInputs | teds_core/report.py:111-145 | rejected specs add no input |
| Report.ReportRcModelled | teds_core/report.py:100-157 | the same for the modelled `validate_doc`: 2 on a hard failure, else the largest spec code (0 without outputs), one output per admitted spec |
| Report.ProcessSpec | teds_core/report.py:112-145 | one iteration computes `SpecStep` |
| Report.CollectInputs | teds_core/report.py:108-145 | the first loop computes `InputsFrom` |
| Report.RunReportPerSpec | teds_core/report.py:100-157 | `run_report_per_spec` computes `ReportSpec` |

## Behaviour worth knowing

These facts follow from the code; the model keeps each of them.

- **A case whose payload fails to parse under `parse_payload`.** The YAML exception escapes `_evaluate_case`, so `validate_doc` skips the case and raises the exit code to 2 (`teds_core/validate.py:241-249`).
- **An `invalid` case that both validators accept.** The message is the plain `UNEXPECTEDLY VALID`; the explanation is added only when strict rejects (`teds_core/validate.py:152-164`).
- **A successful `invalid` case.** It carries the rejection as `validation_message`, not `message` (`teds_core/validate.py:144-150`).
- **A ref whose validators cannot be built.** Only that ref is skipped, with exit code 2, and later refs are still evaluated (`teds_core/validate.py:195-203`).
- **Pre-indexing on every load.** Pre-indexing rewrites the container pointers on every load, including already-cached ones. Only the requested pointer is protected from overwriting (`teds_core/cache.py:254-263`).
- **Literal quirks.**
  - `lstrip("#/")` strips every leading `#` and `/` (`teds_core/cache.py:281`).
  - A non-mapping pointer target becomes `{}` (`teds_core/cache.py:300`).
  - Pre-indexed keys are not `~1`-escaped (`teds_core/cache.py:324`, `teds_core/cache.py:344`).
  - `$defs` is not pre-indexed (`teds_core/cache.py:309-348`).
  - `resolve_schema_node` cannot step into lists (`teds_core/refs.py:62-67`).

## Left out

- Cache.SchemaCache.Load: does not model the state the source leaves when `load` raises, nor a cache file whose fields have the wrong JSON types. For a file that is not valid UTF-8 (`UnicodeDecodeError`, not among the caught `JSONDecodeError` and `OSError`) or one that decodes to a non-object (`.get` raises `AttributeError`), the model reports the escape (`ok` is false) but says nothing more (`teds_core/cache.py:56-69`). `StoredCache` is typed, so it cannot hold a current-version object whose `entries` is not a mapping of file entries. The source accepts such a file in `load` and fails only later, when an entry is used (`teds_core/cache.py:114`, `teds_core/cache.py:137`).
- Version.ToInt: does not read non-ASCII digits or Unicode whitespace. `int()` also accepts decimal digits of other scripts and Unicode whitespace. The model reads ASCII digits and the ASCII whitespace `int()` strips; other characters make it raise. YAML's `.inf` and `.nan` are not values of the model, so `int()` on them is not modelled.
- **Non-string mapping keys.** Mapping keys are strings in the model. YAML allows other scalars as keys, e.g. `valid: {42: null}`. The source then gets the integer 42 as the case key, and `yaml_loader.load(42)` raises (`teds_core/validate.py:45`). So that case is skipped with exit code 2 (`teds_core/validate.py:241-249`). The model sees the key as the string `"42"`, which loads to `42`, so it evaluates the case and writes it under `'42'`. Non-string keys elsewhere (in schemas, refs and groups) are likewise read as their string forms.
- **Validation itself.** JSON Schema validation (`Draft202012Validator`, `FormatChecker`) and registry construction are foreign library calls. They are oracles here.
- **`_retrieve` and network fetching.** URL parsing, `urlopen` and file reads are I/O. Only the policy settings are modelled.
- **YAML parsing and dumping.** These are a library: parsing is an oracle, and a dump is the document value that would be written.
- **The testspec-schema check and `semver` parsing.** Both are library calls, taken as parameters.
- **Disk access, hashing and clocks.** Reading and writing the cache file, SHA-1 hashing, `stat`, `datetime` and `_resolve_path` are I/O. Their results are inputs.
- **The `cache_file` path in `get_stats`.** It is not part of the `Stats` record.
- **`__enter__`/`__exit__`.** They only call `load` and `save`, which are modelled.
- **Error messages.** Messages printed to stderr are I/O; failures are modelled by their variant only.
- **Jinja rendering, template lookup and `get_version`.** These are foreign calls and I/O. The rendered text is represented by its context, a missing template by a parameter, and the tool version by a parameter.
- **Parsing of the environment overrides in `_env_float`/`_env_int`.** These are process environment, given as optional inputs.
- **Python float semantics of the network timeout.** The timeout is a `real`.
- **The `dependencies` field of pointer entries.** It appears only in the class docstring; the code never writes it. `_extract_dependencies` is modelled on its own.
- **The command-line layer, HTTP API, benchmarks and utilities.** These are plumbing around the core.
- **In-place updates of an output case dict.** Setting `from_examples`, appending warnings and promoting the result are modelled as new values of the `CaseOut` record. Each case dict is fresh and never shared, so no aliasing is lost.
