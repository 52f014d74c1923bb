/**
 Whole-engine outcomes on small records, as the repository's tests exercise
 them (tests/JsonValidatorTest.php).
 */
module Scenarios {
  import opened Wrappers
  import opened Strings
  import opened PhpNumbers
  import opened Values
  import opened Rules
  import opened ErrorTree
  import opened Resolver
  import opened ResolverSpec
  import opened Validator

  /** Three rules report in turn, each as it would alone. */
  lemma ThreeRules(v: Value, a: string, b: string, c: string)
    ensures FailingMessages(v, [a, b, c]) ==
      FailingMessages(v, [a]) + FailingMessages(v, [b]) + FailingMessages(v, [c])
  {
    assert [a, b, c] == [a] + [b, c];
    FailingMessagesAppend(v, [a], [b, c]);
    TwoRules(v, b, c);
    AppendAssoc(FailingMessages(v, [a]), FailingMessages(v, [b]), FailingMessages(v, [c]));
  }

  lemma AppendAssoc(x: seq<string>, y: seq<string>, z: seq<string>)
    ensures x + (y + z) == x + y + z
  {
  }

  /** Two rules report in turn, each as it would alone. */
  lemma TwoRules(v: Value, b: string, c: string)
    ensures FailingMessages(v, [b, c]) == FailingMessages(v, [b]) + FailingMessages(v, [c])
  {
    assert [b, c] == [b] + [c];
    FailingMessagesAppend(v, [b], [c]);
  }

  /** What one plain field contributes to a report: its failing messages at its name, or nothing. */
  function Entry(key: string, found: seq<string>): (r: map<string, ErrNode>)
    ensures key in r <==> found != []
    ensures forall k :: k in r ==> k == key && r[k] == ErrNode(found, map[])
  {
    if found == [] then map[] else map[key := ErrNode(found, map[])]
  }

  /** The messages a plain path reports for a record. */
  function PlainFound(item: seq<(Key, Value)>, key: string, rules: seq<string>): seq<string> {
    match Field(item, key)
    case None => [MissingField(key)]
    case Some(v) => FailingMessages(v, rules)
  }

  /**
   A plain path checked into an empty report: the report has the key's
   location and nothing else, or stays empty when there is nothing to say.
   */
  lemma PlainPathFresh(item: seq<(Key, Value)>, key: string, rules: seq<string>)
    requires !Contains(key, MidWildcard) && !EndsWith(key, EndWildcard)
    ensures SinglePassCheck(item, key, rules, Empty) == ErrNode([], Entry(key, PlainFound(item, key, rules)))
  {
    var found := PlainFound(item, key, rules);
    var r := SinglePassCheck(item, key, rules, Empty);
    PlainPath(item, key, rules, Empty);
    SinglePassCheckKeeps(item, key, rules, Empty);
    assert Slot(r.kids, key) == ErrNode(found, map[]);
    forall k | k in r.kids
      ensures k == key
    {
      TidySlot(r, k);
    }
    if found == [] {
      assert r.kids == map[];
    } else {
      assert r.kids == map[key := ErrNode(found, map[])];
    }
  }

  /** A second plain path, on another name, adds its own location to a report and keeps the rest. */
  lemma PlainPathBeside(item: seq<(Key, Value)>, k1: string, f1: seq<string>, key: string, rules: seq<string>)
    requires !Contains(key, MidWildcard) && !EndsWith(key, EndWildcard)
    requires k1 != key
    ensures SinglePassCheck(item, key, rules, ErrNode([], Entry(k1, f1))) ==
      ErrNode([], Entry(k1, f1) + Entry(key, PlainFound(item, key, rules)))
  {
    var e := ErrNode([], Entry(k1, f1));
    var found := PlainFound(item, key, rules);
    var want := Entry(k1, f1) + Entry(key, found);
    var r := SinglePassCheck(item, key, rules, e);
    PlainPath(item, key, rules, e);
    SinglePassCheckKeeps(item, key, rules, e);
    assert Slot(r.kids, key) == ErrNode(found, map[]);
    forall k | k in r.kids
      ensures k in want && r.kids[k] == want[k]
    {
      TidySlot(r, k);
    }
    forall k | k in want
      ensures k in r.kids
    {
      TidySlot(r, k);
    }
    assert r.kids == want;
  }

  /** A plain name, written as it is stored: a string key that is its own first segment. */
  lemma PlainName(k: string)
    requires '.' !in k && !IsIntegerKeyString(k)
    ensures ArrayKey(k) == StrKey(k)
    ensures FirstSegment(k) == k
    ensures !Contains(k, MidWildcard) && !EndsWith(k, EndWildcard)
  {
    NoDots(k);
  }

  /**
   A record of one plain field checked against its own name: the field's
   failing messages sit at its name, and nothing else is reported.
   */
  lemma OneFieldRecord(k: string, v: Value, rules: seq<string>)
    requires '.' !in k && !IsIntegerKeyString(k)
    ensures RecordErrors([(StrKey(k), v)], [(k, rules)]) == ErrNode([], Entry(k, FailingMessages(v, rules)))
  {
    var item := [(StrKey(k), v)];
    var schema := [(k, rules)];
    PlainName(k);
    assert Field(item, k) == Some(v);
    PlainPathFresh(item, k, rules);
    assert schema[0] == (k, rules) && schema[1..] == [];
    assert CheckPaths(item, schema, Empty) == CheckPaths(item, [], SinglePassCheck(item, k, rules, Empty));
    assert FirstSegment(schema[0].0) in AllowedTopLevelKeys(schema);
    AllAllowed(item, schema);
  }

  /** Each of two distinct plain names finds its own field. */
  lemma TwoFieldLookup(k1: string, v1: Value, k2: string, v2: Value)
    requires ArrayKey(k1) == StrKey(k1) && ArrayKey(k2) == StrKey(k2)
    requires k1 != k2
    ensures Field([(StrKey(k1), v1), (StrKey(k2), v2)], k1) == Some(v1)
    ensures Field([(StrKey(k1), v1), (StrKey(k2), v2)], k2) == Some(v2)
  {
    var item := [(StrKey(k1), v1), (StrKey(k2), v2)];
    assert Field(item, k1) == Lookup(item, StrKey(k1)) == Some(v1);
    assert item[0].0 != StrKey(k2);
    assert item[1..] == [(StrKey(k2), v2)];
    assert Lookup(item[1..], StrKey(k2)) == Some(v2);
    assert Field(item, k2) == Lookup(item, StrKey(k2)) == Lookup(item[1..], StrKey(k2));
  }

  /** Two plain paths on distinct names, checked into an empty report. */
  lemma TwoFieldPaths(k1: string, v1: Value, r1: seq<string>, k2: string, v2: Value, r2: seq<string>)
    requires '.' !in k1 && !IsIntegerKeyString(k1)
    requires '.' !in k2 && !IsIntegerKeyString(k2)
    requires k1 != k2
    ensures CheckPaths([(StrKey(k1), v1), (StrKey(k2), v2)], [(k1, r1), (k2, r2)], Empty) ==
      ErrNode([], Entry(k1, FailingMessages(v1, r1)) + Entry(k2, FailingMessages(v2, r2)))
  {
    var item := [(StrKey(k1), v1), (StrKey(k2), v2)];
    var schema := [(k1, r1), (k2, r2)];
    PlainName(k1);
    PlainName(k2);
    TwoFieldLookup(k1, v1, k2, v2);
    PlainPathFresh(item, k1, r1);
    PlainPathBeside(item, k1, FailingMessages(v1, r1), k2, r2);
    TwoPathSchema(item, (k1, r1), (k2, r2), Empty);
  }

  /** Both keys of a two-field record are allowed by a schema of the same two dot-free names. */
  lemma TwoKeysAllowed(k1: string, v1: Value, r1: seq<string>, k2: string, v2: Value, r2: seq<string>)
    requires '.' !in k1 && '.' !in k2
    ensures forall j :: 0 <= j < 2 ==>
      Allowed([(StrKey(k1), v1), (StrKey(k2), v2)][j].0, AllowedTopLevelKeys([(k1, r1), (k2, r2)]))
  {
    var schema := [(k1, r1), (k2, r2)];
    NoDots(k1);
    NoDots(k2);
    assert FirstSegment(schema[0].0) in AllowedTopLevelKeys(schema);
    assert FirstSegment(schema[1].0) in AllowedTopLevelKeys(schema);
  }

  /**
   A record of two plain fields with distinct names, checked against exactly
   those names: each field's failing messages sit at its own name, and
   nothing else is reported.
   */
  lemma TwoFieldRecord(k1: string, v1: Value, r1: seq<string>, k2: string, v2: Value, r2: seq<string>)
    requires '.' !in k1 && !IsIntegerKeyString(k1)
    requires '.' !in k2 && !IsIntegerKeyString(k2)
    requires k1 != k2
    ensures RecordErrors([(StrKey(k1), v1), (StrKey(k2), v2)], [(k1, r1), (k2, r2)]) ==
      ErrNode([], Entry(k1, FailingMessages(v1, r1)) + Entry(k2, FailingMessages(v2, r2)))
  {
    var item := [(StrKey(k1), v1), (StrKey(k2), v2)];
    var schema := [(k1, r1), (k2, r2)];
    TwoFieldPaths(k1, v1, r1, k2, v2, r2);
    TwoKeysAllowed(k1, v1, r1, k2, v2, r2);
    AllAllowed(item, schema);
  }

  /** A plain path whose field is present and passes every rule leaves a tidy report as it was. */
  lemma PassingPlainPathKeeps(item: seq<(Key, Value)>, key: string, rules: seq<string>, e: ErrNode)
    requires !Contains(key, MidWildcard) && !EndsWith(key, EndWildcard)
    requires Tidy(e)
    requires Field(item, key).Some? && FailingMessages(Field(item, key).value, rules) == []
    ensures SinglePassCheck(item, key, rules, e) == e
  {
    var r := SinglePassCheck(item, key, rules, e);
    PlainPath(item, key, rules, e);
    SinglePassCheckKeeps(item, key, rules, e);
    forall k | k in r.kids
      ensures k in e.kids && r.kids[k] == e.kids[k]
    {
      TidySlot(r, k);
      TidySlot(e, k);
    }
    forall k | k in e.kids
      ensures k in r.kids
    {
      TidySlot(r, k);
      TidySlot(e, k);
    }
    assert r.kids == e.kids;
  }

  /**
   A `base.*.rest` path over an empty `base` array runs no iteration, and the
   base's location is unset only if it was empty anyway: a tidy report is left
   as it was.
   */
  lemma EmptyBaseKeeps(item: seq<(Key, Value)>, key: string, rules: seq<string>, e: ErrNode)
    requires Contains(key, MidWildcard)
    requires Field(item, SplitFirst(key, MidWildcard).0) == Some(Arr([]))
    requires Tidy(e)
    ensures SinglePassCheck(item, key, rules, e) == e
  {
    var (base, rest) := SplitFirst(key, MidWildcard);
    var slot := Slot(e.kids, base);
    assert FanOut([], base, rest, rules, slot) == slot;
    var m := Settle(e.kids, base, slot);
    TidySlot(e, base);
    forall k | k in m
      ensures k in e.kids && m[k] == e.kids[k]
    {
      assert Slot(m, k) == Slot(e.kids, k);
    }
    forall k | k in e.kids
      ensures k in m
    {
    }
    assert m == e.kids;
  }

  /** Paths each of which leaves a report as it is leave it as it is together. */
  lemma {:induction false} KeepingPaths(item: seq<(Key, Value)>, schema: Schema, e: ErrNode)
    requires forall i :: 0 <= i < |schema| ==> SinglePassCheck(item, schema[i].0, schema[i].1, e) == e
    ensures CheckPaths(item, schema, e) == e
  {
    if schema != [] {
      assert SinglePassCheck(item, schema[0].0, schema[0].1, e) == e;
      forall i | 0 <= i < |schema[1..]|
        ensures SinglePassCheck(item, schema[1..][i].0, schema[1..][i].1, e) == e
      {
        assert schema[1..][i] == schema[i + 1];
      }
      KeepingPaths(item, schema[1..], e);
    }
  }

  /** A dot-free name followed by `.*` holds no `.*.`, so `name.*.rest` splits after the name. */
  lemma DotFreeBase(base: string, rest: string)
    requires '.' !in base
    ensures Contains(base + MidWildcard + rest, MidWildcard)
    ensures SplitFirst(base + MidWildcard + rest, MidWildcard) == (base, rest)
  {
    var prefix := base + ".*";
    ContainsIff(prefix, MidWildcard);
    forall j: nat | j + 3 <= |prefix|
      ensures !OccursAt(prefix, MidWildcard, j)
    {
      assert prefix[j..j + 3][0] == prefix[j] == base[j];
    }
    SplitAtFirstWildcard(base, rest);
  }

  /** A record's keys all allowed by the schema: the report is the schema paths' report. */
  lemma AllAllowed(item: seq<(Key, Value)>, schema: Schema)
    requires forall j :: 0 <= j < |item| ==> Allowed(item[j].0, AllowedTopLevelKeys(schema))
    ensures RecordErrors(item, schema) == CheckPaths(item, schema, Empty)
  {
    CheckPathsKeeps(item, schema, Empty);
    FlagUnexpectedKeeps(item, AllowedTopLevelKeys(schema), CheckPaths(item, schema, Empty));
  }

  lemma NoDots(s: string)
    requires '.' !in s
    ensures FirstSegment(s) == s
    ensures !Contains(s, MidWildcard) && !EndsWith(s, EndWildcard)
  {
    FirstSegmentIsExplodeHead(s);
    ExplodeNoSeparator(s, '.');
    ContainsIff(s, MidWildcard);
    forall j: nat | j + 3 <= |s|
      ensures !OccursAt(s, MidWildcard, j)
    {
      assert s[j..j + 3][0] == s[j];
    }
    if |s| >= 2 {
      assert s[|s| - 2..][0] == s[|s| - 2];
    }
  }

  /** A schema of two paths runs the first, then the second. */
  lemma TwoPathSchema(item: seq<(Key, Value)>, p: (string, seq<string>), q: (string, seq<string>), e: ErrNode)
    ensures CheckPaths(item, [p, q], e) == SinglePassCheck(item, q.0, q.1, SinglePassCheck(item, p.0, p.1, e))
  {
    var first := SinglePassCheck(item, p.0, p.1, e);
    assert [p, q][0] == p && [p, q][1..] == [q];
    assert CheckPaths(item, [p, q], e) == CheckPaths(item, [q], first);
    assert [q][0] == q && [q][1..] == [];
    assert CheckPaths(item, [q], first) == CheckPaths(item, [], SinglePassCheck(item, q.0, q.1, first));
  }

  /** A one-element list holding one record reports that record's errors under index 0. */
  lemma OneRecordOutcome(rec: seq<(Key, Value)>, schema: Schema)
    requires !RecordErrors(rec, schema).IsEmpty()
    ensures RecordsAreArrays([(IntKey(0), Arr(rec))])
    ensures ValidateSchema([(IntKey(0), Arr(rec))], schema) == Invalid(map[0 := RecordErrors(rec, schema)])
  {
    var data := [(IntKey(0), Arr(rec))];
    IsListIff(data);
    assert Records(data) == [Arr(rec)];
    var r := ValidateSchema(data, schema);
    assert r.Invalid?;
    assert r.errors.Keys == {0};
  }

  // ---------------------------------------------------------------------
  // An empty `answers` array (testEmptyAnswersArray)
  // ---------------------------------------------------------------------

  const AnswersRules: seq<string> := ["required", "array", "min:1"]
  const IdRules: seq<string> := ["required", "integer", "min:1"]
  const TextRules: seq<string> := ["required", "string"]

  /** The schema of `testEmptyAnswersArray`, in three parts: before, at and after `answers`. */
  const QuizHead: Schema := [("id", IdRules), ("question", TextRules)]
  const AnswersPath: (string, seq<string>) := ("answers", AnswersRules)
  const QuizTail: Schema := [
    ("answers.*.id", TextRules),
    ("answers.*.answer_option", TextRules),
    ("correct_answer_id", TextRules),
    ("answer_explanation", TextRules)
  ]
  const QuizSchema: Schema := QuizHead + [AnswersPath] + QuizTail

  /** The record of `testEmptyAnswersArray`. */
  const QuizRecord: seq<(Key, Value)> := [
    (StrKey("id"), Int(2)),
    (StrKey("question"), Str("Another question")),
    (StrKey("answers"), Arr([])),
    (StrKey("correct_answer_id"), Str("b")),
    (StrKey("answer_explanation"), Str("Explanation text"))
  ]

  /** The report such a record gets: both messages under `answers`, and nothing else. */
  const AnswersReport: ErrNode :=
    ErrNode([], map["answers" := ErrNode(["Field is required.", "Must have at least 1 items."], map[])])

  lemma OneCast()
    ensures IntCast("1") == 1
  {
    NumericRoundTrip(1);
    assert NatToString(1) == [DigitChar(1)];
    assert DigitChar(1) == '1';
  }

  lemma EmptyAnswersRules()
    ensures FailingMessages(Arr([]), ["required"]) == ["Field is required."]
    ensures FailingMessages(Arr([]), ["array"]) == []
  {
    RequiredRule(Arr([]));
    TypeRules(Arr([]));
    FailingMessagesSingle(Arr([]), "required");
    FailingMessagesSingle(Arr([]), "array");
  }

  lemma EmptyAnswersMin()
    ensures FailingMessages(Arr([]), ["min:1"]) == ["Must have at least 1 items."]
  {
    EmptyAnswersMinRule();
    FailingMessagesSingle(Arr([]), "min:1");
  }

  lemma EmptyAnswersMinRule()
    ensures ApplyRule(Arr([]), "min:1") == Some("Must have at least 1 items.")
  {
    OneCast();
    MinOneText();
    MinRule(Arr([]), "1");
  }

  /** `[]` fails `required` (PHP's `empty([])`) and `min:1`, but is an array. */
  lemma EmptyAnswersMessages()
    ensures FailingMessages(Arr([]), AnswersRules) == ["Field is required.", "Must have at least 1 items."]
  {
    ThreeRules(Arr([]), "required", "array", "min:1");
    EmptyAnswersRules();
    EmptyAnswersMin();
  }

  /** Any non-empty string passes `required` and `string`. */
  lemma TextPasses(t: string)
    requires t != ""
    ensures FailingMessages(Str(t), TextRules) == []
  {
    RequiredRule(Str(t));
    TypeRules(Str(t));
    FailingMessagesAppend(Str(t), ["required"], ["string"]);
    assert ["required"] + ["string"] == TextRules;
    FailingMessagesSingle(Str(t), "required");
    FailingMessagesSingle(Str(t), "string");
  }

  /** `min:1` accepts exactly the integers from 1 up. */
  lemma MinOne(n: int)
    ensures ApplyRule(Int(n), "min:1").None? <==> n >= 1
  {
    OneCast();
    MinOneText();
    MinRule(Int(n), "1");
  }

  /** The rule `min:1` and its message for arrays, as built from the parameter "1". */
  lemma MinOneText()
    ensures "min:" + "1" == "min:1"
    ensures "Must have at least " + "1" + " items." == "Must have at least 1 items."
  {
  }

  /** Any integer from 1 up passes `required`, `integer` and `min:1`. */
  lemma IdPasses(n: int)
    requires n >= 1
    ensures FailingMessages(Int(n), IdRules) == []
  {
    ThreeRules(Int(n), "required", "integer", "min:1");
    RequiredRule(Int(n));
    TypeRules(Int(n));
    FailingMessagesSingle(Int(n), "required");
    FailingMessagesSingle(Int(n), "integer");
    MinOne(n);
    FailingMessagesSingle(Int(n), "min:1");
  }

  /** The record's five names are plain strings: PHP keeps them as string keys. */
  lemma QuizName(k: string)
    requires k in ["id", "question", "answers", "correct_answer_id", "answer_explanation"]
    ensures ArrayKey(k) == StrKey(k)
  {
    assert !IsDigit('i') && !IsDigit('q') && !IsDigit('a') && !IsDigit('c');
    assert !IsIntegerKeyString(k);
  }

  /** The schema's five top-level names hold no dot. */
  lemma QuizNamesDotFree()
    ensures '.' !in "id" && '.' !in "question" && '.' !in "answers"
    ensures '.' !in "correct_answer_id" && '.' !in "answer_explanation"
  {
  }

  /**
   The records `testEmptyAnswersArray` stands for: an integer `id` of at
   least 1, non-empty strings for the three text fields, and an empty
   `answers` array.
   */
  predicate QuizShaped(item: seq<(Key, Value)>, n: int, q: string, c: string, x: string) {
    && Field(item, "id") == Some(Int(n)) && n >= 1
    && Field(item, "question") == Some(Str(q)) && q != ""
    && Field(item, "answers") == Some(Arr([]))
    && Field(item, "correct_answer_id") == Some(Str(c)) && c != ""
    && Field(item, "answer_explanation") == Some(Str(x)) && x != ""
  }

  /** A present non-empty string field passes `required` and `string`: the report is left as it was. */
  lemma TextFieldKeeps(item: seq<(Key, Value)>, k: string, t: string, e: ErrNode)
    requires '.' !in k
    requires Field(item, k) == Some(Str(t)) && t != ""
    requires Tidy(e)
    ensures SinglePassCheck(item, k, TextRules, e) == e
  {
    NoDots(k);
    TextPasses(t);
    PassingPlainPathKeeps(item, k, TextRules, e);
  }

  /** A present integer field of at least 1 passes `required`, `integer` and `min:1`. */
  lemma IdFieldKeeps(item: seq<(Key, Value)>, k: string, n: int, e: ErrNode)
    requires '.' !in k
    requires Field(item, k) == Some(Int(n)) && n >= 1
    requires Tidy(e)
    ensures SinglePassCheck(item, k, IdRules, e) == e
  {
    NoDots(k);
    IdPasses(n);
    PassingPlainPathKeeps(item, k, IdRules, e);
  }

  /** `base.*.rest` over an empty `base` array runs no iteration: the report is left as it was. */
  lemma EmptyArrayKeeps(item: seq<(Key, Value)>, base: string, rest: string, rules: seq<string>, e: ErrNode)
    requires '.' !in base
    requires Field(item, base) == Some(Arr([]))
    requires Tidy(e)
    ensures SinglePassCheck(item, base + MidWildcard + rest, rules, e) == e
  {
    DotFreeBase(base, rest);
    EmptyBaseKeeps(item, base + MidWildcard + rest, rules, e);
  }

  /** `id` and `question` pass, so the report is still empty before `answers`. */
  lemma QuizHeadPasses(item: seq<(Key, Value)>, n: int, q: string)
    requires Field(item, "id") == Some(Int(n)) && n >= 1
    requires Field(item, "question") == Some(Str(q)) && q != ""
    ensures CheckPaths(item, QuizHead, Empty) == Empty
  {
    QuizNamesDotFree();
    IdFieldKeeps(item, "id", n, Empty);
    TextFieldKeeps(item, "question", q, Empty);
    KeepingPaths(item, QuizHead, Empty);
  }

  /** An empty `answers` array fails `required` and `min:1`, in that order. */
  lemma QuizAnswersFails(item: seq<(Key, Value)>)
    requires Field(item, "answers") == Some(Arr([]))
    ensures CheckPaths(item, [AnswersPath], Empty) == AnswersReport
  {
    QuizNamesDotFree();
    NoDots("answers");
    EmptyAnswersMessages();
    PlainPathFresh(item, "answers", AnswersRules);
    assert [AnswersPath][1..] == [];
  }

  /** The two wildcard paths of the schema, as base, `.*.` and remainder. */
  lemma QuizWildcardPaths()
    ensures QuizTail[0].0 == "answers" + MidWildcard + "id"
    ensures QuizTail[1].0 == "answers" + MidWildcard + "answer_option"
  {
  }

  /** The report for an empty `answers` array is tidy: no empty location is left in it. */
  lemma AnswersReportTidy()
    ensures Tidy(AnswersReport)
  {
  }

  /** The two `answers.*.…` paths add nothing. */
  lemma QuizWildcardsKeep(item: seq<(Key, Value)>, e: ErrNode)
    requires Field(item, "answers") == Some(Arr([]))
    requires Tidy(e)
    ensures SinglePassCheck(item, QuizTail[0].0, TextRules, e) == e
    ensures SinglePassCheck(item, QuizTail[1].0, TextRules, e) == e
  {
    QuizNamesDotFree();
    QuizWildcardPaths();
    EmptyArrayKeeps(item, "answers", "id", TextRules, e);
    EmptyArrayKeeps(item, "answers", "answer_option", TextRules, e);
  }

  /** The last two text fields pass. */
  lemma QuizTextTailKeeps(item: seq<(Key, Value)>, c: string, x: string, e: ErrNode)
    requires Field(item, "correct_answer_id") == Some(Str(c)) && c != ""
    requires Field(item, "answer_explanation") == Some(Str(x)) && x != ""
    requires Tidy(e)
    ensures SinglePassCheck(item, QuizTail[2].0, TextRules, e) == e
    ensures SinglePassCheck(item, QuizTail[3].0, TextRules, e) == e
  {
    QuizNamesDotFree();
    TextFieldKeeps(item, "correct_answer_id", c, e);
    TextFieldKeeps(item, "answer_explanation", x, e);
  }

  /** Nothing after `answers` changes its report. */
  lemma QuizTailKeeps(item: seq<(Key, Value)>, c: string, x: string)
    requires Field(item, "answers") == Some(Arr([]))
    requires Field(item, "correct_answer_id") == Some(Str(c)) && c != ""
    requires Field(item, "answer_explanation") == Some(Str(x)) && x != ""
    ensures CheckPaths(item, QuizTail, AnswersReport) == AnswersReport
  {
    AnswersReportTidy();
    QuizWildcardsKeep(item, AnswersReport);
    QuizTextTailKeeps(item, c, x, AnswersReport);
    forall i | 0 <= i < |QuizTail|
      ensures SinglePassCheck(item, QuizTail[i].0, QuizTail[i].1, AnswersReport) == AnswersReport
    {
      assert i == 0 || i == 1 || i == 2 || i == 3;
      assert QuizTail[i].1 == TextRules;
    }
    KeepingPaths(item, QuizTail, AnswersReport);
  }

  /** All seven paths: only `answers` is reported. */
  lemma QuizPaths(item: seq<(Key, Value)>, n: int, q: string, c: string, x: string)
    requires QuizShaped(item, n, q, c, x)
    ensures CheckPaths(item, QuizSchema, Empty) == AnswersReport
  {
    QuizHeadPasses(item, n, q);
    QuizAnswersFails(item);
    QuizTailKeeps(item, c, x);
    CheckPathsAppend(item, QuizHead, [AnswersPath], Empty);
    CheckPathsAppend(item, QuizHead + [AnswersPath], QuizTail, Empty);
  }

  /** A dot-free path is its own first segment, so it is an allowed top-level key. */
  lemma DotFreeAllowed(schema: Schema, i: nat)
    requires i < |schema| && '.' !in schema[i].0
    ensures schema[i].0 in AllowedTopLevelKeys(schema)
  {
    NoDots(schema[i].0);
  }

  /** Where the five plain names sit in the schema. */
  lemma QuizSchemaNames()
    ensures |QuizSchema| == 7
    ensures QuizSchema[0].0 == "id" && QuizSchema[1].0 == "question" && QuizSchema[2].0 == "answers"
    ensures QuizSchema[5].0 == "correct_answer_id" && QuizSchema[6].0 == "answer_explanation"
  {
  }

  /** Each of the five names is allowed: it is a whole plain path of the schema. */
  lemma QuizNamesAllowed()
    ensures {"id", "question", "answers", "correct_answer_id", "answer_explanation"} <= AllowedTopLevelKeys(QuizSchema)
  {
    QuizNamesDotFree();
    QuizSchemaNames();
    DotFreeAllowed(QuizSchema, 0);
    DotFreeAllowed(QuizSchema, 1);
    DotFreeAllowed(QuizSchema, 2);
    DotFreeAllowed(QuizSchema, 5);
    DotFreeAllowed(QuizSchema, 6);
  }

  /** A record whose keys are among the five names has no unexpected field. */
  lemma QuizKeysAllowed(item: seq<(Key, Value)>)
    requires forall j :: 0 <= j < |item| ==>
      item[j].0 in {StrKey("id"), StrKey("question"), StrKey("answers"), StrKey("correct_answer_id"), StrKey("answer_explanation")}
    ensures forall j :: 0 <= j < |item| ==> Allowed(item[j].0, AllowedTopLevelKeys(QuizSchema))
  {
    QuizNamesAllowed();
  }

  /**
   `testEmptyAnswersArray`, for every record of its shape whose keys are the
   schema's five plain names: only `answers` is reported, with "Field is
   required." (PHP's `empty([])`) and then "Must have at least 1 items."; the
   two `answers.*.…` paths over the empty array add nothing.
   */
  lemma EmptyAnswersReport(item: seq<(Key, Value)>, n: int, q: string, c: string, x: string)
    requires QuizShaped(item, n, q, c, x)
    requires forall j :: 0 <= j < |item| ==>
      item[j].0 in {StrKey("id"), StrKey("question"), StrKey("answers"), StrKey("correct_answer_id"), StrKey("answer_explanation")}
    ensures RecordErrors(item, QuizSchema) == AnswersReport
  {
    QuizPaths(item, n, q, c, x);
    QuizKeysAllowed(item);
    AllAllowed(item, QuizSchema);
  }

  /** The entry at index `i` is found when no earlier entry has its key. */
  lemma {:induction false} LookupAt(entries: seq<(Key, Value)>, i: nat, k: Key)
    requires i < |entries| && entries[i].0 == k
    requires forall j :: 0 <= j < i ==> entries[j].0 != k
    ensures Lookup(entries, k) == Some(entries[i].1)
  {
    if i > 0 {
      assert entries[0].0 != k;
      LookupAt(entries[1..], i - 1, k);
    }
  }

  /** The field at index `i` of the test's record, found under its plain name. */
  lemma QuizRecordField(i: nat, k: string)
    requires i < |QuizRecord| && QuizRecord[i].0 == StrKey(k)
    requires k in ["id", "question", "answers", "correct_answer_id", "answer_explanation"]
    ensures Field(QuizRecord, k) == Some(QuizRecord[i].1)
  {
    LookupAt(QuizRecord, i, StrKey(k));
    QuizName(k);
  }

  /** The test's own record has that shape. */
  lemma QuizRecordShaped()
    ensures QuizShaped(QuizRecord, 2, "Another question", "b", "Explanation text")
  {
    QuizRecordField(0, "id");
    QuizRecordField(1, "question");
    QuizRecordField(2, "answers");
    QuizRecordField(3, "correct_answer_id");
    QuizRecordField(4, "answer_explanation");
  }

  /** The test's own record has only the five names as keys. */
  lemma QuizRecordKeys()
    ensures forall j :: 0 <= j < |QuizRecord| ==>
      QuizRecord[j].0 in {StrKey("id"), StrKey("question"), StrKey("answers"), StrKey("correct_answer_id"), StrKey("answer_explanation")}
  {
    forall j | 0 <= j < |QuizRecord|
      ensures QuizRecord[j].0 in {StrKey("id"), StrKey("question"), StrKey("answers"), StrKey("correct_answer_id"), StrKey("answer_explanation")}
    {
      assert j == 0 || j == 1 || j == 2 || j == 3 || j == 4;
    }
  }

  /**
   As the test submits it, a one-element list holding its record: record 0
   is reported with exactly that tree.
   */
  lemma EmptyAnswersOutcome()
    ensures RecordsAreArrays([(IntKey(0), Arr(QuizRecord))])
    ensures ValidateSchema([(IntKey(0), Arr(QuizRecord))], QuizSchema) == Invalid(map[0 := AnswersReport])
  {
    QuizRecordShaped();
    QuizRecordKeys();
    EmptyAnswersReport(QuizRecord, 2, "Another question", "b", "Explanation text");
    assert !AnswersReport.IsEmpty() by {
      assert "answers" in AnswersReport.kids;
    }
    OneRecordOutcome(QuizRecord, QuizSchema);
  }

  // ---------------------------------------------------------------------
  // An age above its maximum (testIntegerMaxRule)
  // ---------------------------------------------------------------------

  const Elder: seq<(Key, Value)> := [(StrKey("username"), Str("ElderPerson")), (StrKey("age"), Int(120))]
  const AgeSchema: Schema := [("username", ["required", "string"]), ("age", ["required", "integer", "max:100"])]

  lemma HundredCast()
    ensures IntCast("100") == 100
  {
    NumericRoundTrip(100);
    assert 100 / 10 == 10 && 100 % 10 == 0 && 10 / 10 == 1 && 10 % 10 == 0;
    assert NatToString(1) == [DigitChar(1)];
    assert NatToString(10) == NatToString(1) + [DigitChar(0)];
    assert NatToString(100) == NatToString(10) + [DigitChar(0)];
    assert DigitChar(1) == '1' && DigitChar(0) == '0';
    assert IntToString(100) == "100";
  }

  lemma ElderNames()
    ensures '.' !in "username" && !IsIntegerKeyString("username")
    ensures '.' !in "age" && !IsIntegerKeyString("age")
  {
    assert !IsDigit('u') && !IsDigit('a');
  }

  lemma UsernamePasses()
    ensures FailingMessages(Str("ElderPerson"), ["required", "string"]) == []
  {
    RequiredRule(Str("ElderPerson"));
    TypeRules(Str("ElderPerson"));
    FailingMessagesAppend(Str("ElderPerson"), ["required"], ["string"]);
    assert ["required"] + ["string"] == ["required", "string"];
    FailingMessagesSingle(Str("ElderPerson"), "required");
    FailingMessagesSingle(Str("ElderPerson"), "string");
  }

  lemma AgeRules()
    ensures FailingMessages(Int(120), ["required"]) == []
    ensures FailingMessages(Int(120), ["integer"]) == []
  {
    RequiredRule(Int(120));
    TypeRules(Int(120));
    FailingMessagesSingle(Int(120), "required");
    FailingMessagesSingle(Int(120), "integer");
  }

  lemma AgeMax()
    ensures FailingMessages(Int(120), ["max:100"]) == ["Must not exceed 100."]
  {
    AgeMaxRule();
    FailingMessagesSingle(Int(120), "max:100");
  }

  /** 120 is above any maximum that casts to 100. */
  lemma AboveMax(param: string)
    requires IntCast(param) == 100
    ensures ApplyRule(Int(120), "max:" + param) == Some("Must not exceed " + param + ".")
  {
    MaxRule(Int(120), param);
  }

  lemma AgeMaxRule()
    ensures ApplyRule(Int(120), "max:100") == Some("Must not exceed 100.")
  {
    HundredCast();
    AboveMax("100");
    HundredText();
  }

  /** The rule `max:100` and its message, as built from the parameter "100". */
  lemma HundredText()
    ensures "max:" + "100" == "max:100"
    ensures "Must not exceed " + "100" + "." == "Must not exceed 100."
  {
  }

  lemma AgeFails()
    ensures FailingMessages(Int(120), ["required", "integer", "max:100"]) == ["Must not exceed 100."]
  {
    ThreeRules(Int(120), "required", "integer", "max:100");
    AgeRules();
    AgeMax();
  }

  /** A username that passes and an age of 120 against `max:100`: only the age is reported. */
  lemma ElderReport()
    ensures RecordErrors(Elder, AgeSchema) ==
      ErrNode([], map["age" := ErrNode(["Must not exceed 100."], map[])])
  {
    ElderNames();
    TwoFieldRecord("username", Str("ElderPerson"), ["required", "string"], "age", Int(120), ["required", "integer", "max:100"]);
    UsernamePasses();
    AgeFails();
    assert Entry("username", []) == map[];
  }

  /** Given as a one-element list, only the age of record 0 is reported. */
  lemma ElderOutcome()
    ensures RecordsAreArrays([(IntKey(0), Arr(Elder))])
    ensures ValidateSchema([(IntKey(0), Arr(Elder))], AgeSchema) ==
      Invalid(map[0 := ErrNode([], map["age" := ErrNode(["Must not exceed 100."], map[])])])
  {
    var n := ErrNode([], map["age" := ErrNode(["Must not exceed 100."], map[])]);
    ElderReport();
    assert !n.IsEmpty() by {
      assert "age" in n.kids;
    }
    OneRecordOutcome(Elder, AgeSchema);
  }
}
