/**
 The rule evaluator (`applyRule` in src/JsonValidator.php): one rule string
 such as `required`, `min:1` or `in:a,b`, applied to one value, gives None
 when the value passes and the failure message otherwise.
 */
module Rules {
  import opened Wrappers
  import opened Strings
  import opened PhpNumbers
  import opened Values

  /** The rule names the evaluator recognises; any other name always fails. */
  const KnownRules: set<string> := {"required", "string", "integer", "boolean", "array", "min", "max", "in"}

  /**
   `explode(':', $rule, 2)` when the rule contains a colon: the name before the
   first colon and the parameter after it. Without a colon the parameter is
   PHP's null, which prints, casts with `(int)` and explodes exactly like the
   empty string, so "" stands for it.
   */
  function SplitRule(rule: string): (r: (string, string))
    ensures ':' !in r.0
    ensures ':' in rule ==> r.0 + ":" + r.1 == rule
    ensures ':' !in rule ==> r == (rule, "")
  {
    ContainsChar(rule, ':');
    if Contains(rule, ":") then
      SplitFirstCharFree(rule, ':');
      SplitFirst(rule, ":")
    else
      (rule, "")
  }

  /** A rule written `name:param` splits back into its name and its whole parameter. */
  lemma SplitRuleOf(name: string, param: string)
    requires ':' !in name
    ensures SplitRule(name + ":" + param) == (name, param)
  {
    var rule := name + ":" + param;
    assert rule[|name|] == ':';
    forall j | 0 <= j < |name|
      ensures !OccursAt(rule, ":", j)
    {
      assert rule[j] == name[j];
    }
    SplitFirstUnique(rule, ":", name, param);
  }

  /** `applyRule($value, $rule)`: None is PHP's `true`, Some carries the message. */
  function ApplyRule(v: Value, rule: string): (r: Option<string>)
    ensures r.None? ==> SplitRule(rule).0 in KnownRules
  {
    var (name, param) := SplitRule(rule);
    if name == "required" then Required(v)
    else if name == "string" then (if v.Str? then None else Some("Must be a string."))
    else if name == "integer" then (if v.Int? then None else Some("Must be an integer."))
    else if name == "boolean" then (if v.Bool? then None else Some("Must be a boolean."))
    else if name == "array" then (if v.Arr? then None else Some("Must be an array."))
    else if name == "min" then Min(v, param)
    else if name == "max" then Max(v, param)
    else if name == "in" then In(v, param)
    else Some("Invalid validation rule: " + rule)
  }

  function Required(v: Value): Option<string> {
    if IsEmptyValue(v) && v != Int(0) && v != Str("0") then Some("Field is required.") else None
  }

  function Min(v: Value, param: string): Option<string> {
    if v.Arr? then
      if |v.entries| >= IntCast(param) then None else Some("Must have at least " + param + " items.")
    else
      var n := NumberValue(v);
      if n.Some? && n.value >= IntCast(param) then None else Some("Must be at least " + param + ".")
  }

  function Max(v: Value, param: string): Option<string> {
    if v.Arr? then
      if |v.entries| <= IntCast(param) then None else Some("Must not have more than " + param + " items.")
    else
      var n := NumberValue(v);
      if n.Some? && n.value <= IntCast(param) then None else Some("Must not exceed " + param + ".")
  }

  function In(v: Value, param: string): Option<string> {
    if v.Str? && v.s in Explode(param, ',') then None else Some("Invalid value. Allowed: " + param + ".")
  }

  /** A rule with a parameter is dispatched on its name alone. */
  lemma ApplyParameterised(v: Value, name: string, param: string)
    requires name in {"min", "max", "in"}
    ensures ApplyRule(v, name + ":" + param) ==
      if name == "min" then Min(v, param) else if name == "max" then Max(v, param) else In(v, param)
  {
    SplitRuleOf(name, param);
  }

  /** The values `required` rejects: null, false, 0.0, "" and []. */
  predicate Blank(v: Value) {
    v == Null || v == Bool(false) || (v.Float? && v.zero) || v == Str("") || v == Arr([])
  }

  /**
   `required` fails exactly on the blank values; the empty-looking int 0 and
   string "0" count as present.
   */
  lemma RequiredRule(v: Value)
    ensures ApplyRule(v, "required") == if Blank(v) then Some("Field is required.") else None
    ensures ApplyRule(Int(0), "required").None? && ApplyRule(Str("0"), "required").None?
  {
    assert ':' !in "required";
  }

  /** The type rules are exact type tests: no coercion, so the string "30" is not an integer. */
  lemma TypeRules(v: Value)
    ensures ApplyRule(v, "string") == if v.Str? then None else Some("Must be a string.")
    ensures ApplyRule(v, "integer") == if v.Int? then None else Some("Must be an integer.")
    ensures ApplyRule(v, "boolean") == if v.Bool? then None else Some("Must be a boolean.")
    ensures ApplyRule(v, "array") == if v.Arr? then None else Some("Must be an array.")
  {
    assert ':' !in "string" && ':' !in "integer" && ':' !in "boolean" && ':' !in "array";
  }

  /**
   `min:N` counts the elements of an array and compares any other value's
   number against `(int)N`; a value that is neither an array nor numeric
   always fails.
   */
  lemma MinRule(v: Value, param: string)
    ensures v.Arr? ==>
      ApplyRule(v, "min:" + param) ==
        if |v.entries| >= IntCast(param) then None else Some("Must have at least " + param + " items.")
    ensures !v.Arr? ==>
      ApplyRule(v, "min:" + param) ==
        if NumberValue(v).Some? && NumberValue(v).value >= IntCast(param) then None
        else Some("Must be at least " + param + ".")
    ensures !v.Arr? && NumberValue(v).None? ==> ApplyRule(v, "min:" + param).Some?
  {
    assert "min:" + param == "min" + ":" + param;
    ApplyParameterised(v, "min", param);
  }

  /** `max:N` is the mirror image of `min:N`. */
  lemma MaxRule(v: Value, param: string)
    ensures v.Arr? ==>
      ApplyRule(v, "max:" + param) ==
        if |v.entries| <= IntCast(param) then None else Some("Must not have more than " + param + " items.")
    ensures !v.Arr? ==>
      ApplyRule(v, "max:" + param) ==
        if NumberValue(v).Some? && NumberValue(v).value <= IntCast(param) then None
        else Some("Must not exceed " + param + ".")
    ensures !v.Arr? && NumberValue(v).None? ==> ApplyRule(v, "max:" + param).Some?
  {
    assert "max:" + param == "max" + ":" + param;
    ApplyParameterised(v, "max", param);
  }

  /** A number written in decimal meets `min` and `max` bounds written the same way. */
  lemma IntegerBounds(v: int, lo: int, hi: int)
    ensures ApplyRule(Int(v), "min:" + IntToString(lo)).None? <==> v >= lo
    ensures ApplyRule(Int(v), "max:" + IntToString(hi)).None? <==> v <= hi
  {
    MinRule(Int(v), IntToString(lo));
    MaxRule(Int(v), IntToString(hi));
    NumericRoundTrip(lo);
    NumericRoundTrip(hi);
  }

  /**
   `in:a,b,c` passes only for a string equal to one of the comma-separated
   tokens; the comparison is strict, so no other type ever passes.
   */
  lemma InRule(v: Value, param: string)
    ensures ApplyRule(v, "in:" + param).None? <==> v.Str? && v.s in Explode(param, ',')
    ensures ApplyRule(v, "in:" + param).Some? ==>
      ApplyRule(v, "in:" + param).value == "Invalid value. Allowed: " + param + "."
  {
    assert "in:" + param == "in" + ":" + param;
    ApplyParameterised(v, "in", param);
  }

  /** The `in` tokens are the parameter's comma-free pieces, and together they spell it. */
  lemma InTokens(param: string, tokens: seq<string>)
    requires |tokens| >= 1
    requires forall i :: 0 <= i < |tokens| ==> ',' !in tokens[i]
    requires Implode(tokens, ',') == param
    ensures forall v :: ApplyRule(v, "in:" + param).None? <==> v.Str? && v.s in tokens
  {
    ExplodeImplode(tokens, ',');
    forall v
      ensures ApplyRule(v, "in:" + param).None? <==> v.Str? && v.s in tokens
    {
      InRule(v, param);
    }
  }

  /** An unrecognised rule fails on every value, quoting the whole rule text. */
  lemma UnknownRule(v: Value, rule: string)
    requires SplitRule(rule).0 !in KnownRules
    ensures ApplyRule(v, rule) == Some("Invalid validation rule: " + rule)
  {
  }

  /**
   `validateValue`: every rule is applied, in schema order and without
   stopping at the first failure; the messages of the failing ones are kept.
   */
  function FailingMessages(v: Value, rules: seq<string>): (r: seq<string>)
    ensures |r| <= |rules|
    ensures r == [] <==> forall i :: 0 <= i < |rules| ==> ApplyRule(v, rules[i]).None?
  {
    if rules == [] then []
    else
      var tail := FailingMessages(v, rules[1..]);
      assert forall i :: 1 <= i < |rules| ==> rules[i] == rules[1..][i - 1];
      match ApplyRule(v, rules[0])
      case Some(m) => [m] + tail
      case None => tail
  }

  /** Every message reported comes from a rule that failed with it. */
  lemma {:induction false} FailingMessagesFromRules(v: Value, rules: seq<string>)
    ensures forall m :: m in FailingMessages(v, rules) ==>
      exists i :: 0 <= i < |rules| && ApplyRule(v, rules[i]) == Some(m)
  {
    if rules != [] {
      FailingMessagesFromRules(v, rules[1..]);
      forall m | m in FailingMessages(v, rules)
        ensures exists i :: 0 <= i < |rules| && ApplyRule(v, rules[i]) == Some(m)
      {
        if m !in FailingMessages(v, rules[1..]) {
          assert ApplyRule(v, rules[0]) == Some(m);
        } else {
          var i :| 0 <= i < |rules[1..]| && ApplyRule(v, rules[1..][i]) == Some(m);
          assert rules[i + 1] == rules[1..][i];
        }
      }
    }
  }

  /** Messages come out in schema order: the rules of a concatenation report in turn. */
  lemma {:induction false} FailingMessagesAppend(v: Value, first: seq<string>, second: seq<string>)
    ensures FailingMessages(v, first + second) == FailingMessages(v, first) + FailingMessages(v, second)
  {
    if first != [] {
      assert (first + second)[1..] == first[1..] + second;
      FailingMessagesAppend(v, first[1..], second);
    } else {
      assert first + second == second;
    }
  }

  /** One failing rule contributes exactly its own message. */
  lemma FailingMessagesSingle(v: Value, rule: string)
    ensures FailingMessages(v, [rule]) == match ApplyRule(v, rule) case Some(m) => [m] case None => []
  {
    assert [rule][1..] == [];
  }
}
