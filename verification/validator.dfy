/**
 The orchestrator (`validateSchema` and `isList` in src/JsonValidator.php)
 and the unexpected-field detector it runs after the schema paths.
 */
module Validator {
  import opened Wrappers
  import opened Strings
  import opened Values
  import opened ErrorTree
  import opened Resolver
  import opened ResolverSpec

  /** Schema paths in schema order, each with its rule strings. */
  type Schema = seq<(string, seq<string>)>

  /** The validation outcome: PHP's `true`, or the errors keyed by record index. */
  datatype Outcome = Valid | Invalid(errors: map<nat, ErrNode>)

  /** `$allowedTopLevelKeys`: the first `.`-segment of every schema path. */
  function AllowedTopLevelKeys(schema: Schema): set<string> {
    set i | 0 <= i < |schema| :: FirstSegment(schema[i].0)
  }

  /** `in_array($fieldKey, $allowedTopLevelKeys, true)`: strict, so an integer key never matches. */
  predicate Allowed(k: Key, allowed: set<string>) {
    k.StrKey? && k.s in allowed
  }

  function UnexpectedField(name: string): string {
    "Unexpected field: " + name
  }

  /** The loop over the record's own keys that flags the ones the schema does not mention. */
  function FlagUnexpected(fields: seq<(Key, Value)>, allowed: set<string>, e: ErrNode): ErrNode {
    if fields == [] then e
    else
      var k := KeyString(fields[0].0);
      var flagged :=
        if Allowed(fields[0].0, allowed) then e
        else e.(kids := e.kids[k := AddMsg(Slot(e.kids, k), UnexpectedField(k))]);
      FlagUnexpected(fields[1..], allowed, flagged)
  }

  /** `singlePassCheck` for every schema path, in schema order, into one report. */
  function CheckPaths(item: seq<(Key, Value)>, schema: Schema, e: ErrNode): ErrNode {
    if schema == [] then e
    else CheckPaths(item, schema[1..], SinglePassCheck(item, schema[0].0, schema[0].1, e))
  }

  /** `$itemErrors` for one record once every path and the unexpected-field pass have run. */
  function RecordErrors(item: seq<(Key, Value)>, schema: Schema): ErrNode {
    FlagUnexpected(item, AllowedTopLevelKeys(schema), CheckPaths(item, schema, Empty))
  }

  /** The records validated: the input itself when it is a list, else the input as one record. */
  function Records(data: seq<(Key, Value)>): seq<Value> {
    if IsList(data) then seq(|data|, i requires 0 <= i < |data| => data[i].1) else [Arr(data)]
  }

  /** Every record is an array; PHP's `array $item` parameter rejects anything else. */
  predicate RecordsAreArrays(data: seq<(Key, Value)>) {
    forall i :: 0 <= i < |Records(data)| ==> Records(data)[i].Arr?
  }

  /** The errors of records `from..` onwards, keyed by index; records without errors are left out. */
  function CollectErrors(records: seq<Value>, schema: Schema, from: nat): (r: map<nat, ErrNode>)
    requires from <= |records|
    requires forall i :: 0 <= i < |records| ==> records[i].Arr?
    decreases |records| - from
    ensures forall j :: j in r <==>
      from <= j < |records| && !RecordErrors(records[j].entries, schema).IsEmpty()
    ensures forall j :: j in r ==> r[j] == RecordErrors(records[j].entries, schema)
  {
    if from == |records| then map[]
    else
      var later := CollectErrors(records, schema, from + 1);
      var mine := RecordErrors(records[from].entries, schema);
      if mine.IsEmpty() then later else later[from := mine]
  }

  /**
   `validateSchema($data, $schema)`: `Valid` exactly when no record has an
   error; otherwise the errors of exactly the failing records, each under the
   record's index.
   */
  function ValidateSchema(data: seq<(Key, Value)>, schema: Schema): (r: Outcome)
    requires RecordsAreArrays(data)
    ensures var records := Records(data);
      r.Valid? <==> forall i :: 0 <= i < |records| ==> RecordErrors(records[i].entries, schema).IsEmpty()
    ensures var records := Records(data);
      r.Invalid? ==>
        && r.errors != map[]
        && (forall j: nat :: j in r.errors <==> j < |records| && !RecordErrors(records[j].entries, schema).IsEmpty())
        && (forall j :: j in r.errors ==> r.errors[j] == RecordErrors(records[j].entries, schema))
  {
    var records := Records(data);
    var errors := CollectErrors(records, schema, 0);
    assert forall j: nat :: j in errors <==> j < |records| && !RecordErrors(records[j].entries, schema).IsEmpty();
    if errors == map[] then Valid else Invalid(errors)
  }

  // ---------------------------------------------------------------------
  // Unexpected fields
  // ---------------------------------------------------------------------

  /**
   A record key is allowed exactly when it is a string equal to the part
   before the first `.` of some schema path; an integer key never is.
   */
  lemma AllowedIff(k: Key, schema: Schema)
    ensures Allowed(k, AllowedTopLevelKeys(schema)) <==>
      k.StrKey? && exists i :: 0 <= i < |schema| && Explode(schema[i].0, '.')[0] == k.s
  {
    forall i | 0 <= i < |schema|
      ensures FirstSegment(schema[i].0) == Explode(schema[i].0, '.')[0]
    {
      FirstSegmentIsExplodeHead(schema[i].0);
    }
  }

  /**
   The detector keeps the report tidy and loses nothing, never touches the
   record-level message list, gives every disallowed key a location, and
   changes nothing when every key is allowed.
   */
  lemma {:induction false} FlagUnexpectedKeeps(fields: seq<(Key, Value)>, allowed: set<string>, e: ErrNode)
    requires Tidy(e)
    ensures var r := FlagUnexpected(fields, allowed, e);
      && Tidy(r) && Extends(e, r) && r.msgs == e.msgs
      && (forall j :: 0 <= j < |fields| && !Allowed(fields[j].0, allowed) ==> KeyString(fields[j].0) in r.kids)
      && ((forall j :: 0 <= j < |fields| ==> Allowed(fields[j].0, allowed)) ==> r == e)
  {
    if fields == [] {
      ExtendsRefl(e);
    } else {
      var k := KeyString(fields[0].0);
      var flagged :=
        if Allowed(fields[0].0, allowed) then e
        else e.(kids := e.kids[k := AddMsg(Slot(e.kids, k), UnexpectedField(k))]);
      if Allowed(fields[0].0, allowed) {
        ExtendsRefl(e);
      } else {
        var n := AddMsg(Slot(e.kids, k), UnexpectedField(k));
        AddMsgsKeeps(Slot(e.kids, k), [UnexpectedField(k)]);
        SettleKeeps(e, k, n);
        assert Settle(e.kids, k, n) == e.kids[k := n];
      }
      var tail := fields[1..];
      FlagUnexpectedKeeps(tail, allowed, flagged);
      var r := FlagUnexpected(tail, allowed, flagged);
      ExtendsTrans(e, flagged, r);
      forall j | 0 <= j < |fields| && !Allowed(fields[j].0, allowed)
        ensures KeyString(fields[j].0) in r.kids
      {
        if j == 0 {
          assert k in flagged.kids;
        } else {
          assert fields[j] == tail[j - 1];
        }
      }
      if forall j :: 0 <= j < |fields| ==> Allowed(fields[j].0, allowed) {
        assert Allowed(fields[0].0, allowed);
        assert forall j :: 0 <= j < |tail| ==> tail[j] == fields[j + 1];
      }
    }
  }

  /**
   Over a record's own keys (each at most once): a disallowed key gets exactly
   one "Unexpected field: key" appended to its location, whose nested
   locations are left alone; every other location is left as it was.
   */
  lemma {:induction false} FlagUnexpectedSpec(fields: seq<(Key, Value)>, allowed: set<string>, e: ErrNode)
    requires WellFormedArray(fields)
    ensures var r := FlagUnexpected(fields, allowed, e);
      && r.msgs == e.msgs
      && (forall j :: 0 <= j < |fields| ==>
            var k := KeyString(fields[j].0);
            Slot(r.kids, k) ==
              if Allowed(fields[j].0, allowed) then Slot(e.kids, k)
              else AddMsg(Slot(e.kids, k), UnexpectedField(k)))
      && (forall k :: !IsElementSlot(fields, k) ==> Slot(r.kids, k) == Slot(e.kids, k))
  {
    if fields != [] {
      var k0 := KeyString(fields[0].0);
      var flagged :=
        if Allowed(fields[0].0, allowed) then e
        else e.(kids := e.kids[k0 := AddMsg(Slot(e.kids, k0), UnexpectedField(k0))]);
      var tail := fields[1..];
      WellFormedTail(fields);
      FlagUnexpectedSpec(tail, allowed, flagged);
      var r := FlagUnexpected(tail, allowed, flagged);
      forall j | 0 <= j < |fields|
        ensures var k := KeyString(fields[j].0);
          Slot(r.kids, k) ==
            if Allowed(fields[j].0, allowed) then Slot(e.kids, k)
            else AddMsg(Slot(e.kids, k), UnexpectedField(k))
      {
        if j > 0 {
          assert fields[j] == tail[j - 1];
          assert KeyString(fields[j].0) != k0;
        }
      }
      forall k | !IsElementSlot(fields, k)
        ensures Slot(r.kids, k) == Slot(e.kids, k)
      {
        forall i | 0 <= i < |tail|
          ensures KeyString(tail[i].0) != k
        {
          assert tail[i] == fields[i + 1];
        }
      }
    }
  }

  // ---------------------------------------------------------------------
  // One record
  // ---------------------------------------------------------------------

  /** Running the schema paths keeps the report tidy, loses nothing and adds no record-level message. */
  lemma {:induction false} CheckPathsKeeps(item: seq<(Key, Value)>, schema: Schema, e: ErrNode)
    requires Tidy(e)
    ensures var r := CheckPaths(item, schema, e);
      Tidy(r) && Extends(e, r) && r.msgs == e.msgs
  {
    if schema == [] {
      ExtendsRefl(e);
    } else {
      var e' := SinglePassCheck(item, schema[0].0, schema[0].1, e);
      SinglePassCheckKeeps(item, schema[0].0, schema[0].1, e);
      CheckPathsKeeps(item, schema[1..], e');
      ExtendsTrans(e, e', CheckPaths(item, schema[1..], e'));
    }
  }

  /** The paths of a concatenated schema run in turn: the first part's, then the second's. */
  lemma {:induction false} CheckPathsAppend(item: seq<(Key, Value)>, first: Schema, second: Schema, e: ErrNode)
    ensures CheckPaths(item, first + second, e) == CheckPaths(item, second, CheckPaths(item, first, e))
  {
    if first == [] {
      assert first + second == second;
    } else {
      assert (first + second)[1..] == first[1..] + second;
      CheckPathsAppend(item, first[1..], second, SinglePassCheck(item, first[0].0, first[0].1, e));
    }
  }

  /** Whether a schema path reports nothing for the record when checked on its own. */
  predicate PathPasses(item: seq<(Key, Value)>, path: (string, seq<string>)) {
    SinglePassCheck(item, path.0, path.1, Empty).IsEmpty()
  }

  /** The schema paths together report nothing exactly when each of them passes on its own. */
  lemma {:induction false} CheckPathsClean(item: seq<(Key, Value)>, schema: Schema)
    ensures CheckPaths(item, schema, Empty).IsEmpty() <==>
      forall i :: 0 <= i < |schema| ==> PathPasses(item, schema[i])
  {
    if schema != [] {
      var first := SinglePassCheck(item, schema[0].0, schema[0].1, Empty);
      var tail := schema[1..];
      assert forall i :: 1 <= i < |schema| ==> schema[i] == tail[i - 1];
      if first.IsEmpty() {
        assert first == Empty;
        CheckPathsClean(item, tail);
      } else {
        SinglePassCheckKeeps(item, schema[0].0, schema[0].1, Empty);
        CheckPathsKeeps(item, tail, first);
        ExtendsNonEmpty(first, CheckPaths(item, tail, first));
      }
    }
  }

  /**
   A record has no errors exactly when every schema path passes on it and
   every one of its keys is allowed.
   */
  lemma RecordErrorsIff(item: seq<(Key, Value)>, schema: Schema)
    ensures RecordErrors(item, schema).IsEmpty() <==>
      && (forall i :: 0 <= i < |schema| ==> PathPasses(item, schema[i]))
      && (forall j :: 0 <= j < |item| ==> Allowed(item[j].0, AllowedTopLevelKeys(schema)))
  {
    var allowed := AllowedTopLevelKeys(schema);
    var checked := CheckPaths(item, schema, Empty);
    CheckPathsKeeps(item, schema, Empty);
    CheckPathsClean(item, schema);
    FlagUnexpectedKeeps(item, allowed, checked);
    var r := FlagUnexpected(item, allowed, checked);
    if !checked.IsEmpty() {
      ExtendsNonEmpty(checked, r);
    }
  }

  /**
   The report for one record is tidy, carries no record-level message, and
   is the schema paths' report with exactly the disallowed keys flagged: one
   "Unexpected field: key" each, nothing nested below them touched.
   */
  lemma RecordUnexpectedFields(item: seq<(Key, Value)>, schema: Schema)
    requires WellFormedArray(item)
    ensures var checked := CheckPaths(item, schema, Empty);
      var r := RecordErrors(item, schema);
      && Tidy(r) && r.msgs == []
      && (forall j :: 0 <= j < |item| ==>
            var k := KeyString(item[j].0);
            && Slot(r.kids, k).kids == Slot(checked.kids, k).kids
            && Slot(r.kids, k).msgs ==
                 if Allowed(item[j].0, AllowedTopLevelKeys(schema)) then Slot(checked.kids, k).msgs
                 else Slot(checked.kids, k).msgs + [UnexpectedField(k)])
      && (forall k :: !IsElementSlot(item, k) ==> Slot(r.kids, k) == Slot(checked.kids, k))
  {
    var checked := CheckPaths(item, schema, Empty);
    CheckPathsKeeps(item, schema, Empty);
    FlagUnexpectedKeeps(item, AllowedTopLevelKeys(schema), checked);
    FlagUnexpectedSpec(item, AllowedTopLevelKeys(schema), checked);
  }

  /** A record with no keys reports something for every schema path, whatever its rules. */
  lemma EmptyRecordReports(key: string, rules: seq<string>, e: ErrNode)
    ensures !SinglePassCheck([], key, rules, e).IsEmpty()
  {
    var r := SinglePassCheck([], key, rules, e);
    if Contains(key, MidWildcard) {
      var base := SplitFirst(key, MidWildcard).0;
      assert Field([], base).None?;
      assert base in r.kids;
    } else if EndsWith(key, EndWildcard) {
      var name := key[..|key| - 2];
      assert Field([], name).None?;
      assert name in r.kids;
    } else {
      assert Field([], key).None?;
      assert !AddMsg(Slot(e.kids, key), MissingField(key)).IsEmpty();
      assert key in r.kids;
    }
  }

    // ---------------------------------------------------------------------
  // Normalisation of the input
  // ---------------------------------------------------------------------

  /**
   A list input is validated element by element: record i is the value under
   key i, and its errors, if any, are filed under i.
   */
  lemma ListInput(data: seq<(Key, Value)>, schema: Schema)
    requires IsList(data) && RecordsAreArrays(data)
    ensures |Records(data)| == |data|
    ensures forall i :: 0 <= i < |data| ==> data[i].0 == IntKey(i) && Records(data)[i] == data[i].1
    ensures var r := ValidateSchema(data, schema);
      r.Invalid? ==> forall i: nat :: i in r.errors ==> i < |data| && r.errors[i] == RecordErrors(data[i].1.entries, schema)
  {
    IsListIff(data);
  }

  /**
   Any other input, the empty array included, is validated as a single
   record whose errors, if any, are filed under index 0.
   */
  lemma NonListInput(data: seq<(Key, Value)>, schema: Schema)
    requires !IsList(data)
    ensures RecordsAreArrays(data)
    ensures ValidateSchema(data, schema).Valid? <==> RecordErrors(data, schema).IsEmpty()
    ensures ValidateSchema(data, schema).Invalid? ==>
      ValidateSchema(data, schema).errors == map[0 := RecordErrors(data, schema)]
  {
    var r := ValidateSchema(data, schema);
    if r.Invalid? {
      assert r.errors.Keys == {0};
    }
  }

  /**
   The empty input is one empty record, and that record fails every schema
   path: the outcome is valid exactly when the schema is empty.
   */
  lemma EmptyInput(schema: Schema)
    ensures RecordsAreArrays([])
    ensures ValidateSchema([], schema).Valid? <==> schema == []
  {
    assert !IsList([]) by {
      IsListIff([]);
    }
    NonListInput([], schema);
    RecordErrorsIff([], schema);
    if schema != [] {
      EmptyRecordReports(schema[0].0, schema[0].1, Empty);
    }
  }

  /**
   The outcome is valid exactly when, in every record, every schema path
   passes and every key is allowed.
   */
  lemma ValidIff(data: seq<(Key, Value)>, schema: Schema)
    requires RecordsAreArrays(data)
    ensures ValidateSchema(data, schema).Valid? <==>
      forall i :: 0 <= i < |Records(data)| ==>
        var item := Records(data)[i].entries;
        && (forall p :: 0 <= p < |schema| ==> PathPasses(item, schema[p]))
        && (forall j :: 0 <= j < |item| ==> Allowed(item[j].0, AllowedTopLevelKeys(schema)))
  {
    forall i | 0 <= i < |Records(data)|
      ensures var item := Records(data)[i].entries;
        RecordErrors(item, schema).IsEmpty() <==>
          && (forall p :: 0 <= p < |schema| ==> PathPasses(item, schema[p]))
          && (forall j :: 0 <= j < |item| ==> Allowed(item[j].0, AllowedTopLevelKeys(schema)))
    {
      RecordErrorsIff(Records(data)[i].entries, schema);
    }
  }

  /**
   Every report in the outcome is non-empty, tidy at every depth, and holds
   no message at the record level itself.
   */
  lemma ReportShape(data: seq<(Key, Value)>, schema: Schema)
    requires RecordsAreArrays(data)
    ensures var r := ValidateSchema(data, schema);
      r.Invalid? ==> forall i: nat :: i in r.errors ==>
        !r.errors[i].IsEmpty() && Tidy(r.errors[i]) && r.errors[i].msgs == []
  {
    var r := ValidateSchema(data, schema);
    if r.Invalid? {
      forall i: nat | i in r.errors
        ensures !r.errors[i].IsEmpty() && Tidy(r.errors[i]) && r.errors[i].msgs == []
      {
        var item := Records(data)[i].entries;
        var checked := CheckPaths(item, schema, Empty);
        CheckPathsKeeps(item, schema, Empty);
        FlagUnexpectedKeeps(item, AllowedTopLevelKeys(schema), checked);
      }
    }
  }
}
