# JSON schema validator, modelled in Dafny

This project models the validation engine of LLM-JSON-Cleaner
(`src/JsonValidator.php`). The engine checks an already-decoded PHP array
against a schema and returns `true` or an error tree. A schema maps a
dot-path, which may hold `*` wildcards, to a list of rule strings such as
`required`, `min:1` or `in:a,b`. The engine has four parts, and each one is
a module here:

- **Rule evaluator** (`Rules`). This is `applyRule`. A rule string is split
  at its first `:`. Dispatch is on the name: `required`, the four exact type
  tests, `min`/`max` (element count for arrays, the `(int)` value for
  numbers), `in` (strict membership in the comma-split tokens), and
  "Invalid validation rule" for anything else. `validateValue` keeps every
  failing rule's message in schema order (`FailingMessages`).
- **Path resolver** (`Resolver`, specified in `ResolverSpec`). This covers
  `singlePassCheck`, `directKeyCheck` and `validateValue`.
  - A path containing `.*.` is split at its first occurrence. The remainder
    is resolved against every element of the base array, and the findings
    go under `base → (string)key`.
  - A path ending in `.*` applies the rules to every element.
  - Any other path is one literal key, dots included.
  - Every location left empty is unset.
- **Unexpected-field detector** (`Validator.FlagUnexpected`). It flags
  every top-level record key that is not the first `.`-segment of some
  schema path. The comparison is strict, so integer keys are always
  flagged.
- **Orchestrator** (`Validator.ValidateSchema`). A non-list input is wrapped
  as one record. PHP's `isList` is modelled with `range`'s count-down
  behaviour, so `[]` is not a list. The result keeps only the records that
  have errors, keyed by their index.

Supporting modules:
- `Strings`: `str_contains`, `explode`, `str_ends_with` and the first `.`
  segment.
- `PhpNumbers`: `(string)$int`, integer-like array keys, `is_numeric` and
  `(int)` on strings.
- `Values`: decoded values and PHP arrays as ordered key/value sequences,
  including PHP's key coercion (`"5"` indexes key 5).
- `ErrorTree`: the error tree, its pruning invariant `Tidy`, and the no-loss
  order `Extends`.
- `Scenarios`: whole-engine outcomes for records of plain fields, and two of
  the repository's tests (`testEmptyAnswersArray`, `testIntegerMaxRule`)
  worked out to their exact error trees.

**Where the model departs from the PHP on purpose: the error node.** In PHP,
one array per location holds both the location's messages (integer keys 0,
1, …) and its per-element children (keys `(string)$i`, which PHP stores as
the integers i). The model's `ErrNode` keeps `msgs` and `kids` apart, so a
message and a child never collide. The PHP behaviour is modelled separately
in `AsWritten` and reported under Findings.

Properties proved:
- every resolver step keeps the tree tidy and loses no message;
- for each kind of path, the exact contents of each location;
- the fan-out gives at most one entry per element, and an entry exists
  exactly for the failing elements;
- unexpected-field detection touches exactly the disallowed top-level keys;
- the outcome is `Valid` exactly when every record passes every path and has
  only allowed keys;
- the empty input is valid exactly when the schema is empty;
- rule semantics, including round trips through PHP's number rendering and
  parsing.

## Model

| member | source | states |
|---|---|---|
| Strings.ContainsIff | src/JsonValidator.php:48 | `str_contains($key, '.*.')` holds exactly when the pattern occurs at some position |
| Strings.SplitFirst | src/JsonValidator.php:49 | `explode('.*.', $key, 2)`: base, pattern and rest rejoin to the key, and the base holds no earlier occurrence |
| Strings.SplitFirstUnique | src/JsonValidator.php:49 | a key built as base + pattern + rest, where the base has no occurrence, splits back into exactly that base and rest |
| Strings.Explode | src/JsonValidator.php:17 | `explode` gives at least one piece, and no piece contains the separator |
| Strings.ImplodeExplode | src/JsonValidator.php:17 | the exploded pieces joined with the separator give back the original string |
| Strings.ExplodeImplode | src/JsonValidator.php:185 | separator-free tokens joined with commas explode back into the same tokens |
| Strings.FirstSegment | src/JsonValidator.php:17-18 | the first segment is a dot-free prefix of the path, followed by a `.` or by the end of the path |
| Strings.FirstSegmentIsExplodeHead | src/JsonValidator.php:17-18 | the first segment is `explode('.', $path)[0]` |
| PhpNumbers.NatToString | src/JsonValidator.php:58 | `(string)$i` of a natural number is a canonical digit string whose value is the number |
| PhpNumbers.NatToStringOfDigits | src/JsonValidator.php:58 | rendering the value of a canonical digit string gives that string back |
| PhpNumbers.IntToStringIsIntegerKey | src/JsonValidator.php:58-61 | `(string)$i` of any integer is a string that PHP turns back into the integer key i |
| PhpNumbers.IntegerKeyRoundTrip | src/JsonValidator.php:58-61 | every integer-like key string is the rendering of its own integer value |
| PhpNumbers.IntCast | src/JsonValidator.php:176-182 | `(int)$s`: leading whitespace, an optional sign and the leading digits; `PhpNumbers.IntCastOfNumeric` and `PhpNumbers.NumericRoundTrip` relate it to the numeric value and to `(string)$i` |
| PhpNumbers.IntCastOfNumeric | src/JsonValidator.php:177 | on a numeric string, `(int)` gives the integer part of the number it denotes |
| PhpNumbers.NumericRoundTrip | src/JsonValidator.php:177-182 | a rendered integer is numeric, and `(int)` reads it back as the same integer |
| Values.ArrayKey | src/JsonValidator.php:51 | a string names the key that prints as it; the key is an integer key exactly for integer-like strings |
| Values.ArrayKeyOfKeyString | src/JsonValidator.php:58-61 | every well-formed key is the key its own string form indexes |
| Values.KeyStringInjective | src/JsonValidator.php:58-62 | distinct well-formed keys print differently, so two elements never share a location |
| Values.Lookup | src/JsonValidator.php:51 | `array_key_exists`: None exactly when no entry has the key; otherwise the value of an entry with that key |
| Values.LookupFindsEntry | src/JsonValidator.php:123-126 | in a well-formed array, looking up an entry's key finds that entry's value |
| Values.KeyString | src/JsonValidator.php:58 | `(string)$k`; `Values.ArrayKeyOfKeyString` and `Values.KeyStringInjective` state that the printed form indexes the key back and that distinct keys print differently |
| Values.PhpRange | src/JsonValidator.php:194 | PHP `range`, counting down when lo > hi; `Values.AscendingRange` states the ascending case and `Values.IsListIff` the consequence `range(0, -1) == [0, -1]` |
| Values.IsList | src/JsonValidator.php:192-195 | `array_keys($arr) === range(0, count($arr) - 1)`; `Values.IsListIff` characterises it |
| Values.IsEmptyValue | src/JsonValidator.php:160 | PHP `empty()`: null, false, 0, 0.0, "", "0" and []; `Rules.RequiredRule` states which of these `required` rejects |
| Values.TypeName | src/JsonValidator.php:66-68 | PHP `gettype`, quoted in the "Expected object/array" message that `ResolverSpec.ElementCheckSpec` states |
| Values.AscendingRange | src/JsonValidator.php:194 | `range(lo, hi)` with lo <= hi counts up from lo, one element per integer |
| Values.IsListIff | src/JsonValidator.php:192-195 | `isList` holds exactly for a non-empty array keyed 0..n-1 in order; `[]` is not a list because `range(0, -1)` has two elements |
| Rules.SplitRule | src/JsonValidator.php:152-157 | the rule name holds no `:`; with a colon, name + ":" + param is the rule; without one, the parameter is empty |
| Rules.SplitRuleOf | src/JsonValidator.php:152-153 | `name:param`, with a colon-free name, splits into exactly that name and the whole parameter, colons included |
| Rules.ApplyRule | src/JsonValidator.php:150-190 | a rule can pass only if its name is one of the eight known names |
| Rules.ApplyParameterised | src/JsonValidator.php:153-187 | `min:`, `max:` and `in:` rules are dispatched on the name alone, with the whole text after the colon as the parameter |
| Rules.Required | src/JsonValidator.php:160-162 | the `required` arm; `Rules.RequiredRule` states exactly which values fail it |
| Rules.Min | src/JsonValidator.php:175-179 | the `min` arm; `Rules.MinRule` and `Rules.IntegerBounds` state it |
| Rules.Max | src/JsonValidator.php:180-184 | the `max` arm; `Rules.MaxRule` and `Rules.IntegerBounds` state it |
| Rules.In | src/JsonValidator.php:185-187 | the `in` arm; `Rules.InRule` and `Rules.InTokens` state it |
| Rules.RequiredRule | src/JsonValidator.php:160-162 | `required` fails exactly on null, false, 0.0, "" and []; int 0 and string "0" pass |
| Rules.TypeRules | src/JsonValidator.php:163-174 | dispatch on `string`, `integer`, `boolean` and `array` reaches the matching arm: an exact type test with its message |
| Rules.MinRule | src/JsonValidator.php:175-179 | dispatch on `min:N` reaches the `min` arm, which compares an array's count, or another value's numeric `(int)`, with `(int)N`; a non-numeric non-array value always fails |
| Rules.MaxRule | src/JsonValidator.php:180-184 | dispatch on `max:N` reaches the `max` arm, the mirror image of `min:N`, with the "not have more than" and "not exceed" messages |
| Rules.IntegerBounds | src/JsonValidator.php:175-184 | an integer meets `min:lo` exactly when it is >= lo, and `max:hi` exactly when it is <= hi |
| Rules.InRule | src/JsonValidator.php:185-187 | dispatch on `in:list` reaches the `in` arm, which passes exactly for a string equal to one of the comma-split tokens; on failure the message quotes the list |
| Rules.InTokens | src/JsonValidator.php:185 | for a list written as comma-joined tokens, `in` accepts exactly the strings among those tokens |
| Rules.UnknownRule | src/JsonValidator.php:188 | dispatch on an unknown rule name reaches the default arm, which fails on every value, quoting the whole rule with no trailing period |
| Rules.FailingMessages | src/JsonValidator.php:140-148 | at most one message per rule; no messages exactly when every rule passes |
| Rules.FailingMessagesFromRules | src/JsonValidator.php:142-146 | every reported message is the message of some rule that failed on the value |
| Rules.FailingMessagesAppend | src/JsonValidator.php:142-146 | all rules are applied with no short-circuit, and messages come out in schema order |
| Rules.FailingMessagesSingle | src/JsonValidator.php:143-146 | one rule contributes its own message when it fails, and nothing otherwise |
| ErrorTree.Settle | src/JsonValidator.php:85-87 | writing back a location sets it, or unsets it when it is empty; no other location changes |
| ErrorTree.AddMsgsKeeps | src/JsonValidator.php:145 | appending messages keeps a location tidy and loses nothing |
| ErrorTree.SettleKeeps | src/JsonValidator.php:111-117 | writing back a grown, tidy location keeps its parent tidy and loses nothing |
| Resolver.ValidateValue | src/JsonValidator.php:140-148 | appends the failing rules' messages to a location; `Rules.FailingMessages` and `Rules.FailingMessagesAppend` state which messages, in which order |
| Resolver.SinglePassCheck | src/JsonValidator.php:46-96 | one schema path resolved into the record report; `Resolver.SinglePassCheckKeeps` and the path lemmas `ResolverSpec.PlainPath`, `ResolverSpec.TrailingWildcard` and `ResolverSpec.MidWildcardPath` state its effect |
| Resolver.FanOut | src/JsonValidator.php:57-88 | the `.*.` element loop; `ResolverSpec.FanOutSpec` and `Resolver.FanOutKeeps` state it |
| Resolver.ElementCheck | src/JsonValidator.php:65-83 | one iteration of that loop; `ResolverSpec.ElementCheckSpec` and `Resolver.ElementCheckKeeps` state it |
| Resolver.DirectKeyCheck | src/JsonValidator.php:98-138 | the trailing-wildcard and plain-key cases; `ResolverSpec.TrailingWildcard`, `ResolverSpec.PlainPath` and `Resolver.DirectKeyCheckKeeps` state them |
| Resolver.EachElement | src/JsonValidator.php:107-117 | the trailing-wildcard loop; `ResolverSpec.EachElementIsFanOut` and `Resolver.EachElementKeeps` state it |
| Resolver.SinglePassCheckKeeps | src/JsonValidator.php:46-96 | resolving any path keeps the report tidy at every depth, loses no message and adds no record-level message |
| Resolver.FanOutKeeps | src/JsonValidator.php:57-92 | the element loop keeps the base's location tidy and loses nothing |
| Resolver.ElementCheckKeeps | src/JsonValidator.php:65-83 | one element's check keeps its location tidy and loses nothing |
| Resolver.DirectKeyCheckKeeps | src/JsonValidator.php:98-138 | a trailing-wildcard or plain path keeps the report tidy and loses nothing |
| Resolver.EachElementKeeps | src/JsonValidator.php:107-117 | the trailing-wildcard loop keeps the location tidy and loses nothing |
| ResolverSpec.ElementSlots | src/JsonValidator.php:57-58 | the element locations are exactly the printed element keys, at most one per element |
| ResolverSpec.FanOutSpec | src/JsonValidator.php:57-88 | each element's findings land in its own location, named by its key; every other location is unchanged |
| ResolverSpec.ElementCheckSpec | src/JsonValidator.php:65-83 | an empty remainder applies the rules to the element; a non-array element facing a remainder gets "Expected object/array under base, got <type>"; an array element is resolved against the remainder |
| ResolverSpec.EachElementIsFanOut | src/JsonValidator.php:100-118 | a trailing `.*` path checks elements exactly as the `.*.` fan-out does with an empty remainder |
| ResolverSpec.PlainPath | src/JsonValidator.php:121-137 | literal key: if missing, exactly "Missing required field: key" is added and no rule runs; if present, one message per failing rule in order; an entry exists only when something was reported; nothing else changes |
| ResolverSpec.TrailingWildcard | src/JsonValidator.php:100-118 | `name.*`: "Missing or invalid array field: name" when the field is missing or not an array; otherwise each element's failing-rule messages go under its key, and nothing else changes |
| ResolverSpec.MidWildcardPath | src/JsonValidator.php:48-92 | `base.*.rest`: "Missing or invalid array field: base" without descending, or each element's findings for the rest under `base → key`; nothing else changes |
| ResolverSpec.AtMostOneEntryPerElement | src/JsonValidator.php:57-62 | a location keyed by element keys has at most as many entries as there are elements |
| ResolverSpec.FanOutFresh | src/JsonValidator.php:57-92 | starting from nothing, the fan-out makes at most one entry per element, and an entry exists exactly for the elements that reported something |
| ResolverSpec.WildcardFieldFanOut | src/JsonValidator.php:48-92 | for `a.*.b` over a k-element array, at most k entries appear under `a`, and one appears exactly for the elements where `b` fails |
| ResolverSpec.SplitAtFirstWildcard | src/JsonValidator.php:48-49 | `base.*.rest`, where the base holds no `.*.`, splits at that very spot |
| ResolverSpec.EquivalentWildcardForms | src/JsonValidator.php:73-74 | `name.*.` and `name.*` perform the same check |
| ResolverSpec.MissingBaseRepeats | src/JsonValidator.php:51-54 | each path over a missing base adds its own "Missing or invalid array field" message, with no de-duplication |
| Validator.AllowedTopLevelKeys | src/JsonValidator.php:15-20 | the first `.`-segment of every schema path; `Validator.AllowedIff` characterises membership |
| Validator.FlagUnexpected | src/JsonValidator.php:29-36 | the unexpected-field loop; `Validator.FlagUnexpectedSpec` and `Validator.FlagUnexpectedKeeps` state it |
| Validator.CheckPaths | src/JsonValidator.php:25-27 | every schema path in schema order; `Validator.CheckPathsAppend`, `Validator.CheckPathsKeeps` and `Validator.CheckPathsClean` state it |
| Validator.RecordErrors | src/JsonValidator.php:23-36 | one record's report; `Validator.RecordErrorsIff` and `Validator.RecordUnexpectedFields` state it |
| Validator.AllowedIff | src/JsonValidator.php:15-20 | a record key is allowed exactly when it is a string equal to `explode('.', $path)[0]` for some schema path |
| Validator.FlagUnexpectedKeeps | src/JsonValidator.php:29-36 | flagging keeps the report tidy and loses nothing; every disallowed key gets a location; with all keys allowed nothing changes |
| Validator.FlagUnexpectedSpec | src/JsonValidator.php:29-36 | each disallowed key gets exactly one "Unexpected field: key" appended; every other location is unchanged |
| Validator.CheckPathsKeeps | src/JsonValidator.php:25-27 | running all schema paths keeps the record report tidy and loses nothing |
| Validator.CheckPathsAppend | src/JsonValidator.php:25-27 | schema paths run in order: a concatenated schema runs the first part, then the second |
| Validator.CheckPathsClean | src/JsonValidator.php:25-27 | the paths together report nothing exactly when each path reports nothing on its own |
| Validator.RecordErrorsIff | src/JsonValidator.php:22-40 | a record has no errors exactly when every path passes on it and all its keys are allowed |
| Validator.RecordUnexpectedFields | src/JsonValidator.php:29-36 | the record's report is the paths' report plus one "Unexpected field" per disallowed top-level key; nested locations are never touched |
| Validator.EmptyRecordReports | src/JsonValidator.php:51-54 | a record with no keys gets a report from every schema path |
| Validator.CollectErrors | src/JsonValidator.php:22-41 | exactly the records with a non-empty report are kept, each under its own index with its report |
| Validator.ValidateSchema | src/JsonValidator.php:7-44 | `true` exactly when no record has errors; otherwise exactly the failing records, keyed by index |
| Validator.ListInput | src/JsonValidator.php:9-11 | a list input is validated element by element, and errors are keyed by the element's index |
| Validator.NonListInput | src/JsonValidator.php:9-11 | any other input is one record whose errors, if any, sit under index 0 |
| Validator.EmptyInput | src/JsonValidator.php:192-195 | the empty input is one empty record, valid exactly when the schema is empty |
| Validator.ValidIff | src/JsonValidator.php:22-43 | the outcome is valid exactly when every record passes every path and has only allowed keys |
| Validator.ReportShape | src/JsonValidator.php:38-40 | every reported record is non-empty, tidy at every depth, and has no record-level message |
| Scenarios.ThreeRules | src/JsonValidator.php:142-146 | a three-rule list reports what each rule reports alone, concatenated in rule order |
| Scenarios.PlainPathFresh | src/JsonValidator.php:121-137 | a plain path checked into an empty report leaves exactly one location, holding its messages, or no location when it reports nothing |
| Scenarios.PlainPathBeside | src/JsonValidator.php:121-137 | a plain path on a second name adds only its own location and keeps the first one as it was |
| Scenarios.OneFieldRecord | src/JsonValidator.php:22-40 | a one-field record checked against its own plain name reports exactly that field's failing messages at its name, and nothing else |
| Scenarios.TwoFieldRecord | src/JsonValidator.php:22-40 | a record of two distinct plain fields checked against their names reports each field's failing messages at its own name, and nothing else |
| Scenarios.OneRecordOutcome | src/JsonValidator.php:7-44 | a one-element list whose record has errors is reported as exactly that record's errors under index 0 |
| Scenarios.EmptyAnswersMessages | src/JsonValidator.php:160-179 | `[]` fails `required` (PHP's `empty([])`) and `min:1` but passes `array`, so both messages come out, in rule order |
| Scenarios.PassingPlainPathKeeps | src/JsonValidator.php:121-137 | a plain path whose field is present and passes every rule leaves a tidy report exactly as it was |
| Scenarios.EmptyBaseKeeps | src/JsonValidator.php:57-92 | a `base.*.rest` path over an empty `base` array leaves a tidy report exactly as it was |
| Scenarios.EmptyArrayKeeps | src/JsonValidator.php:48-92 | the same for `base.*.rest` written out with a dot-free base, which splits after the base |
| Scenarios.KeepingPaths | src/JsonValidator.php:25-27 | schema paths each of which leaves a report unchanged leave it unchanged together |
| Scenarios.QuizPaths | tests/JsonValidatorTest.php:87-95 | on every record shaped like the test's (a positive integer `id`, non-empty strings for `question`, `correct_answer_id` and `answer_explanation`, `answers: []`), the seven paths of the test's schema report only `answers`, with "Field is required." then "Must have at least 1 items."; the two `answers.*.…` paths add nothing |
| Scenarios.EmptyAnswersReport | tests/JsonValidatorTest.php:75-101 | for every such record whose keys are those five names, the record's whole report is exactly that one `answers` entry: no unexpected field |
| Scenarios.QuizRecordShaped | tests/JsonValidatorTest.php:77-85 | the test's own five-field record has that shape |
| Scenarios.EmptyAnswersOutcome | tests/JsonValidatorTest.php:75-101 | the test's input, a one-element list holding that record, yields exactly that report under index 0, as the test's assertions on index 0 and `answers` expect |
| Scenarios.AgeMaxRule | src/JsonValidator.php:180-184 | the integer 120 fails `max:100` with "Must not exceed 100." |
| Scenarios.ElderReport | tests/JsonValidatorTest.php:438-458 | `{username: "ElderPerson", age: 120}` against `username: [required, string]` and `age: [required, integer, max:100]` reports only "Must not exceed 100." under `age` |
| Scenarios.ElderOutcome | tests/JsonValidatorTest.php:438-458 | the same record given as a one-element list yields exactly that report under index 0 |
| AsWritten.InitErrorArray | src/JsonValidator.php:197-201 | afterwards the key holds an array: an array already there is kept as it is, anything else is replaced by `[]`, and no other key changes |
| AsWritten.PlainCheck | src/JsonValidator.php:121-137 | the PHP plain-path check writes under its own key only |
| AsWritten.FieldFanOut | src/JsonValidator.php:48-92 | the PHP `base.*.field` check writes under the base's key only |
| AsWritten.LostMessage | src/JsonValidator.php:59-62 | PHP as written: after `answers: [min:5]` files its message at index 0, `answers.*.id` overwrites it and unsets `answers`, leaving no error |
| Corrected.MessageKept | src/JsonValidator.php:85-92 | in the model the same record keeps exactly the `min:5` message under `answers` and is reported invalid |

## Left out

- `src/JsonCleaner.php`: the JSON extraction cascade over `json_decode`, `preg_match` and `json_encode`. It is a thin wrapper over PHP's JSON parser and regex engine, neither of which is part of this model.
- Floating point: a float is represented only by its `(int)` truncation and whether it equals 0.0, which are the two facts the engine observes. Numeric strings cover integer and decimal-point forms with surrounding whitespace. Exponent forms (`"1e3"`) are treated as non-numeric, and hexadecimal and other platform-specific forms are not modelled.
- PhpNumbers.IntCastOfNumeric: does not model PHP's 64-bit integer range. Integers are unbounded, so `(int)` of an out-of-range numeric string does not saturate.
- Values.ArrayKey: integer-like key strings are coerced with no 64-bit bound. `ArrayKey("99999999999999999999")` is an integer key in the model, whereas PHP keeps a string outside PHP_INT_MIN..PHP_INT_MAX as a string key.
- PhpNumbers.IntCast: an exponent-form string is read only up to its leading digits, so `IntCast("1e3") == 1` and `min:1e3` bounds at 1 in the model. PHP reads `(int)"1e3"` as 1000. Out-of-range strings do not saturate either.
- AsWritten.NextIndex: PHP appends at one past the largest integer key the array has ever held, including keys since removed by `unset`. The model uses the largest key the array holds now. The two agree unless the largest key was unset before a push, which never happens in `AsWritten.LostMessage`. For example, after unsetting key 1 of `[0 => …, 1 => …]`, PHP appends at 2 and the model at 1.
- Float and boolean array keys: PHP converts them to integers, but decoded JSON never produces them, so keys are compared as PHP stores them.
- Child order: an error location's children are a map, so the model does not fix the order in which PHP would list them. Message order is modelled.
- The message/child collision in PHP's error arrays is not reproduced by the main model (see the introduction and Findings). `AsWritten` models only the plain path and the `base.*.field` path on PHP arrays, not the whole engine.
- AsWritten.PlainCheck: its contract states only that it writes under its own key. Its full PHP behaviour is stated only for the concrete input of `AsWritten.LostMessage`, because the as-written slice exists to exhibit the Finding.
- AsWritten.FieldFanOut: the same as `AsWritten.PlainCheck`, for the `base.*.field` path.
- Non-array records: when the schema is non-empty, PHP throws a `TypeError` because `singlePassCheck` takes `array $item` (src/JsonValidator.php:26, 46). With an empty schema no path runs, the `foreach` over the record at line 29 only warns, and PHP returns `true`. `ValidateSchema` requires every record to be an array, so the model excludes both cases.
- A schema is a sequence of (path, rules) pairs. PHP's coercion of an integer-like schema key back to a string on the call at line 26 makes no difference, so it is not modelled.
- Two tests assert behaviour the code does not have, and the model follows the code. `testExtraFieldsAreIgnored` (tests/JsonValidatorTest.php:308-336) expects `true`, but `extra_field` is flagged as unexpected. `testAnswersAsObject` (tests/JsonValidatorTest.php:245-275) expects an error, but a string-keyed `answers` array passes its `array` and wildcard checks.
- An empty `answers` array gets two messages. `required` uses `empty()`, which is true for `[]` (src/JsonValidator.php:160-162), so "Field is required." comes before "Must have at least 1 items." (src/JsonValidator.php:175-176), as `Scenarios.EmptyAnswersReport` states.
- Repeated calls give identical results because every operation is a pure function. No separate lemma states this.

## Findings

| source | as written | input that shows it | evidently intended | confidence | as-written member | corrected member |
|---|---|---|---|---|---|---|
| src/JsonValidator.php:59-62 | A field's messages (integer keys 0, 1, …) and its per-element children (key `(string)$i`, stored as integer i) share one PHP array. When a wildcard path reaches element 0 and finds a message string at key 0, line 61 replaces the string with `[]`; if the element passes, lines 85-92 unset both levels. | Schema `answers: [min:5]` then `answers.*.id: [required]`; record `{"answers": [{"id": 1}]}`. The `min:5` failure is filed and then erased, so `validateSchema` returns `true`. | Messages already reported for a field are kept when its elements are checked, so the record is reported with "Must have at least 5 items." | high (not executed) | AsWritten.LostMessage | Corrected.MessageKept |
