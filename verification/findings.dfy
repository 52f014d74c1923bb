/**
 PHP's own error arrays, as src/JsonValidator.php builds them: one array per
 location holds both its messages (appended with `[]`, so under integer keys
 0, 1, ...) and its per-element children (under `(string)$i`, which PHP turns
 back into the integer key i). This slice models the code paths of a plain
 path (lines 121-137) and of a `base.*.field` path (lines 48-92) on such
 arrays, enough to exhibit a message that the second path overwrites and then
 unsets.
 */
module AsWritten {
  import opened Wrappers
  import opened Values
  import opened Rules
  import opened Resolver

  /** One entry of a PHP error array: a message, or a nested error array. */
  datatype PhpErr = Msg(text: string) | Sub(entries: seq<(Key, PhpErr)>)

  /** `$a[$k] ?? none`. */
  function Get(a: seq<(Key, PhpErr)>, k: Key): (r: Option<PhpErr>)
    ensures r.None? <==> forall i :: 0 <= i < |a| ==> a[i].0 != k
  {
    if a == [] then None
    else if a[0].0 == k then Some(a[0].1)
    else
      assert forall i :: 1 <= i < |a| ==> a[i] == a[1..][i - 1];
      Get(a[1..], k)
  }

  /** `$a[$k] = $v`: replaced in place when present, appended otherwise. */
  function Put(a: seq<(Key, PhpErr)>, k: Key, v: PhpErr): (r: seq<(Key, PhpErr)>)
    ensures Get(r, k) == Some(v)
    ensures forall j :: j != k ==> Get(r, j) == Get(a, j)
  {
    if a == [] then [(k, v)]
    else if a[0].0 == k then [(k, v)] + a[1..]
    else [a[0]] + Put(a[1..], k, v)
  }

  /** `unset($a[$k])`. */
  function Remove(a: seq<(Key, PhpErr)>, k: Key): (r: seq<(Key, PhpErr)>)
    ensures Get(r, k).None?
    ensures forall j :: j != k ==> Get(r, j) == Get(a, j)
  {
    if a == [] then []
    else if a[0].0 == k then Remove(a[1..], k)
    else [a[0]] + Remove(a[1..], k)
  }

  /**
   The key `$a[] = ...` uses: one past the largest integer key the array holds,
   and 0 when there is none. PHP counts the largest integer key the array has
   ever held, which agrees whenever that key was never unset before the push.
   */
  function NextIndex(a: seq<(Key, PhpErr)>): (r: nat)
    ensures forall i :: 0 <= i < |a| && a[i].0.IntKey? ==> a[i].0.i < r
  {
    if a == [] then 0
    else
      var later := NextIndex(a[1..]);
      assert forall i :: 1 <= i < |a| ==> a[i] == a[1..][i - 1];
      if a[0].0.IntKey? && a[0].0.i + 1 > later then a[0].0.i + 1 else later
  }

  /** `$a[] = $msg`. */
  function Push(a: seq<(Key, PhpErr)>, msg: string): seq<(Key, PhpErr)> {
    a + [(IntKey(NextIndex(a)), Msg(msg))]
  }

  /** `$a[] = $msg` for each message in turn. */
  function PushAll(a: seq<(Key, PhpErr)>, msgs: seq<string>): seq<(Key, PhpErr)>
    decreases |msgs|
  {
    if msgs == [] then a else PushAll(Push(a, msgs[0]), msgs[1..])
  }

  /** The nested array at `$a[$k]`, or an empty one. */
  function SubAt(a: seq<(Key, PhpErr)>, k: Key): seq<(Key, PhpErr)> {
    match Get(a, k)
    case Some(Sub(entries)) => entries
    case _ => []
  }

  /** `initErrorArray`, and the same test on line 61: anything but an array at `$k` becomes `[]`. */
  function InitErrorArray(a: seq<(Key, PhpErr)>, k: Key): (r: seq<(Key, PhpErr)>)
    ensures Get(r, k).Some? && Get(r, k).value.Sub?
    ensures Get(a, k).Some? && Get(a, k).value.Sub? ==> r == a
    ensures !(Get(a, k).Some? && Get(a, k).value.Sub?) ==> Get(r, k) == Some(Sub([]))
    ensures forall j :: j != k ==> Get(r, j) == Get(a, j)
  {
    match Get(a, k)
    case Some(Sub(_)) => a
    case _ => Put(a, k, Sub([]))
  }

  /** `directKeyCheck` for a plain path, on PHP's error array. */
  function PlainCheck(item: seq<(Key, Value)>, key: string, rules: seq<string>, errs: seq<(Key, PhpErr)>): (r: seq<(Key, PhpErr)>)
    ensures forall j :: j != ArrayKey(key) ==> Get(r, j) == Get(errs, j)
  {
    var k := ArrayKey(key);
    var e1 := InitErrorArray(errs, k);
    var filled := match Field(item, key)
      case None => Push(SubAt(e1, k), MissingField(key))
      case Some(v) => PushAll(SubAt(e1, k), FailingMessages(v, rules));
    if filled == [] then Remove(e1, k) else Put(e1, k, Sub(filled))
  }

  /** The element loop of `singlePassCheck` for a path `base.*.field` with a plain `field`. */
  function FieldLoop(elements: seq<(Key, Value)>, base: string, field: string, rules: seq<string>, errs: seq<(Key, PhpErr)>): seq<(Key, PhpErr)> {
    if elements == [] then errs
    else
      var bk := ArrayKey(base);
      var e1 := InitErrorArray(errs, bk);
      var ik := ArrayKey(KeyString(elements[0].0));
      var under := InitErrorArray(SubAt(e1, bk), ik);
      var sub := elements[0].1;
      var slot :=
        if !sub.Arr? then Push(SubAt(under, ik), NotAContainer(base, sub))
        else PlainCheck(sub.entries, field, rules, SubAt(under, ik));
      var under' := if slot == [] then Remove(under, ik) else Put(under, ik, Sub(slot));
      FieldLoop(elements[1..], base, field, rules, Put(e1, bk, Sub(under')))
  }

  /** `singlePassCheck` for a path `base.*.field` with a plain `field`, on PHP's error array. */
  function FieldFanOut(item: seq<(Key, Value)>, base: string, field: string, rules: seq<string>, errs: seq<(Key, PhpErr)>): (r: seq<(Key, PhpErr)>)
    ensures forall j :: j != ArrayKey(base) ==> Get(r, j) == Get(errs, j)
  {
    var bk := ArrayKey(base);
    match Field(item, base)
    case Some(Arr(elements)) =>
      var e1 := FieldLoop(elements, base, field, rules, errs);
      FieldLoopOthers(elements, base, field, rules, errs);
      if Get(e1, bk) == Some(Sub([])) then Remove(e1, bk) else e1
    case _ =>
      var e1 := InitErrorArray(errs, bk);
      Put(e1, bk, Sub(Push(SubAt(e1, bk), MissingArray(base))))
  }

  /** The element loop writes below the base's key only. */
  lemma {:induction false} FieldLoopOthers(elements: seq<(Key, Value)>, base: string, field: string, rules: seq<string>, errs: seq<(Key, PhpErr)>)
    ensures forall j :: j != ArrayKey(base) ==> Get(FieldLoop(elements, base, field, rules, errs), j) == Get(errs, j)
  {
    if elements != [] {
      var bk := ArrayKey(base);
      var e1 := InitErrorArray(errs, bk);
      var ik := ArrayKey(KeyString(elements[0].0));
      var under := InitErrorArray(SubAt(e1, bk), ik);
      var sub := elements[0].1;
      var slot :=
        if !sub.Arr? then Push(SubAt(under, ik), NotAContainer(base, sub))
        else PlainCheck(sub.entries, field, rules, SubAt(under, ik));
      var under' := if slot == [] then Remove(under, ik) else Put(under, ik, Sub(slot));
      FieldLoopOthers(elements[1..], base, field, rules, Put(e1, bk, Sub(under')));
    }
  }

  // ---------------------------------------------------------------------
  // The lost message
  // ---------------------------------------------------------------------

  /** One record: `answers` is a one-element list whose element has an `id`. */
  const OneAnswer: seq<(Key, Value)> := [(StrKey("answers"), Arr(Answers))]

  const TooFewMessage: string := "Must have at least 5 items."

  /** The element `{"id": 1}` and the array holding it. */
  const IdOne: seq<(Key, Value)> := [(StrKey("id"), Int(1))]
  const Answers: seq<(Key, Value)> := [(IntKey(0), Arr(IdOne))]

  lemma NameKeys()
    ensures ArrayKey("answers") == StrKey("answers")
    ensures ArrayKey("id") == StrKey("id")
    ensures ArrayKey(KeyString(IntKey(0))) == IntKey(0)
  {
    assert !PhpNumbers.IsDigit('a') && !PhpNumbers.IsDigit('i');
    assert !PhpNumbers.IsIntegerKeyString("answers");
    assert !PhpNumbers.IsIntegerKeyString("id");
    ArrayKeyOfKeyString(IntKey(0));
  }

  lemma AnswersFields()
    ensures Field(OneAnswer, "answers") == Some(Arr(Answers))
    ensures Field(IdOne, "id") == Some(Int(1))
  {
    NameKeys();
  }

  lemma FiveCast()
    ensures PhpNumbers.IntCast("5") == 5
  {
    PhpNumbers.NumericRoundTrip(5);
    assert PhpNumbers.NatToString(5) == [PhpNumbers.DigitChar(5)];
    assert PhpNumbers.DigitChar(5) == '5';
  }

  lemma MinFiveFails()
    ensures FailingMessages(Arr(Answers), ["min:5"]) == [TooFewMessage]
  {
    FiveCast();
    MinRule(Arr(Answers), "5");
    assert "min:" + "5" == "min:5";
    assert |Arr(Answers).entries| == 1;
    assert "Must have at least " + "5" + " items." == TooFewMessage;
    assert ApplyRule(Arr(Answers), "min:5") == Some(TooFewMessage);
    FailingMessagesSingle(Arr(Answers), "min:5");
  }

  lemma RequiredPasses()
    ensures FailingMessages(Int(1), ["required"]) == []
  {
    RequiredRule(Int(1));
    FailingMessagesSingle(Int(1), "required");
  }

  /** `answers` after the plain path: the `min:5` message at index 0. */
  const AfterPlain: seq<(Key, PhpErr)> := [(StrKey("answers"), Sub([(IntKey(0), Msg(TooFewMessage))]))]

  lemma PlainStep()
    ensures PlainCheck(OneAnswer, "answers", ["min:5"], []) == AfterPlain
  {
    NameKeys();
    AnswersFields();
    MinFiveFails();
    var k := StrKey("answers");
    var e1 := InitErrorArray([], k);
    assert e1 == [(k, Sub([]))];
    assert SubAt(e1, k) == [];
    assert PushAll([], [TooFewMessage]) == [(IntKey(0), Msg(TooFewMessage))];
  }

  lemma ElementStep()
    ensures PlainCheck(IdOne, "id", ["required"], []) == []
  {
    NameKeys();
    AnswersFields();
    RequiredPasses();
    var k := StrKey("id");
    var e1 := InitErrorArray([], k);
    assert e1 == [(k, Sub([]))];
    assert SubAt(e1, k) == [];
    assert PushAll([], []) == [];
  }

  /** Index 0 of `answers` holds a string, so line 61 resets it to `[]`; the element passes and it is unset. */
  lemma LoopStep()
    ensures FieldLoop(Answers, "answers", "id", ["required"], AfterPlain) == [(StrKey("answers"), Sub([]))]
  {
    NameKeys();
    ElementStep();
    var bk := StrKey("answers");
    assert InitErrorArray(AfterPlain, bk) == AfterPlain;
    assert SubAt(AfterPlain, bk) == [(IntKey(0), Msg(TooFewMessage))];
    var under := InitErrorArray([(IntKey(0), Msg(TooFewMessage))], IntKey(0));
    assert under == [(IntKey(0), Sub([]))];
    assert SubAt(under, IntKey(0)) == [];
    assert Remove(under, IntKey(0)) == [];
    assert Put(AfterPlain, bk, Sub([])) == [(bk, Sub([]))];
    assert Answers[1..] == [];
  }

  /**
   With the schema `answers: [min:5]` followed by `answers.*.id: [required]`,
   the plain path files its message at index 0 of the `answers` array; the
   wildcard path then finds a string at key "0" (PHP's integer 0), replaces it
   with `[]`, reports nothing for the element and unsets both levels. The
   record ends with no error at all although `min:5` failed.
   */
  lemma LostMessage()
    ensures PlainCheck(OneAnswer, "answers", ["min:5"], []) == AfterPlain
    ensures FieldFanOut(OneAnswer, "answers", "id", ["required"], AfterPlain) == []
  {
    PlainStep();
    FanOutStep();
  }

  /** The `answers.*.id` pass finds an empty location under `answers` and unsets it. */
  lemma FanOutStep()
    ensures FieldFanOut(OneAnswer, "answers", "id", ["required"], AfterPlain) == []
  {
    NameKeys();
    AnswersFields();
    LoopStep();
    var e1 := [(StrKey("answers"), Sub([]))];
    assert Get(e1, StrKey("answers")) == Some(Sub([]));
    assert Remove(e1, StrKey("answers")) == [];
  }
}

/** The same two paths in the model, where a location's messages and its children never share keys. */
module Corrected {
  import opened Wrappers
  import opened Strings
  import opened Values
  import opened Rules
  import opened ErrorTree
  import opened Resolver
  import opened ResolverSpec
  import opened Validator
  import AsWritten

  const TooFewThenIds: Schema := [("answers", ["min:5"]), ("answers.*.id", ["required"])]

  lemma FirstPath()
    ensures Slot(SinglePassCheck(AsWritten.OneAnswer, "answers", ["min:5"], Empty).kids, "answers").msgs ==
      [AsWritten.TooFewMessage]
  {
    AsWritten.AnswersFields();
    AsWritten.MinFiveFails();
    assert !Contains("answers", MidWildcard) by {
      ContainsIff("answers", MidWildcard);
    }
    assert !EndsWith("answers", EndWildcard);
    PlainPath(AsWritten.OneAnswer, "answers", ["min:5"], Empty);
  }

  /** Whatever `answers` already holds, the wildcard path leaves its message list alone. */
  lemma SecondPath(e: ErrNode)
    ensures Slot(SinglePassCheck(AsWritten.OneAnswer, "answers.*.id", ["required"], e).kids, "answers").msgs ==
      Slot(e.kids, "answers").msgs
  {
    AsWritten.AnswersFields();
    NoWildcardInBase();
    SplitAtFirstWildcard("answers", "id");
    assert "answers" + MidWildcard + "id" == "answers.*.id";
    assert WellFormedArray(AsWritten.Answers);
    MidWildcardPath(AsWritten.OneAnswer, "answers.*.id", ["required"], e);
  }

  lemma NoWildcardInBase()
    ensures !Contains("answers" + ".*", MidWildcard)
  {
    var s := "answers" + ".*";
    assert s == "answers.*";
    ContainsIff(s, MidWildcard);
    forall j: nat | j + 3 <= |s|
      ensures !OccursAt(s, MidWildcard, j)
    {
      assert s[j..j + 3][0] == s[j] != '.';
    }
  }

  /** The schema's two paths, in order. */
  lemma TwoPaths(e: ErrNode)
    ensures CheckPaths(AsWritten.OneAnswer, TooFewThenIds, e) ==
      SinglePassCheck(AsWritten.OneAnswer, "answers.*.id", ["required"],
        SinglePassCheck(AsWritten.OneAnswer, "answers", ["min:5"], e))
  {
    var item := AsWritten.OneAnswer;
    var first := SinglePassCheck(item, "answers", ["min:5"], e);
    var tail := TooFewThenIds[1..];
    assert TooFewThenIds[0] == ("answers", ["min:5"]);
    assert CheckPaths(item, TooFewThenIds, e) == CheckPaths(item, tail, first);
    assert tail[0] == ("answers.*.id", ["required"]) && tail[1..] == [];
    assert CheckPaths(item, tail, first) == CheckPaths(item, [], SinglePassCheck(item, "answers.*.id", ["required"], first));
  }

  lemma AnswersAllowed()
    ensures WellFormedArray(AsWritten.OneAnswer)
    ensures Allowed(StrKey("answers"), AllowedTopLevelKeys(TooFewThenIds))
  {
    AsWritten.NameKeys();
    assert FirstSegment("answers") == "answers" by {
      FirstSegmentIsExplodeHead("answers");
      ExplodeNoSeparator("answers", '.');
    }
    assert FirstSegment(TooFewThenIds[0].0) in AllowedTopLevelKeys(TooFewThenIds);
  }

  /**
   The model keeps the `min:5` message under `answers` through the wildcard
   path, so the record is reported with exactly that message there.
   */
  lemma MessageKept()
    ensures Slot(RecordErrors(AsWritten.OneAnswer, TooFewThenIds).kids, "answers").msgs == [AsWritten.TooFewMessage]
    ensures RecordsAreArrays(AsWritten.OneAnswer)
    ensures ValidateSchema(AsWritten.OneAnswer, TooFewThenIds).Invalid?
  {
    var item := AsWritten.OneAnswer;
    assert !IsList(item) by {
      IsListIff(item);
    }
    NonListInput(item, TooFewThenIds);
    var first := SinglePassCheck(item, "answers", ["min:5"], Empty);
    FirstPath();
    SecondPath(first);
    var second := SinglePassCheck(item, "answers.*.id", ["required"], first);
    TwoPaths(Empty);
    AnswersAllowed();
    RecordUnexpectedFields(item, TooFewThenIds);
    assert KeyString(item[0].0) == "answers";
  }
}
