/**
 The path resolver (`singlePassCheck`, `directKeyCheck` and `validateValue` in
 src/JsonValidator.php). A schema path is resolved against one record and the
 findings are written into that record's error node:

 - a path containing `.*.` is split at the first occurrence; the part before
   it must name an array, and the remainder is resolved against each element,
   with the element's findings filed under `base -> (string)key`;
 - otherwise a path ending in `.*` names an array whose elements are checked
   directly against the rules, filed under `name -> (string)key`;
 - any other path is one literal key, dots included (`a.b` is the key "a.b").

 Every location that ends up empty is unset before the step returns.
 */
module Resolver {
  import opened Wrappers
  import opened Strings
  import opened Values
  import opened Rules
  import opened ErrorTree

  const MidWildcard: string := ".*."
  const EndWildcard: string := ".*"

  function MissingField(name: string): string {
    "Missing required field: " + name
  }

  function MissingArray(name: string): string {
    "Missing or invalid array field: " + name
  }

  function NotAContainer(base: string, v: Value): string {
    "Expected object/array under " + base + ", got " + TypeName(v)
  }

  /** `validateValue`: the failing rules' messages, appended in schema order. */
  function ValidateValue(v: Value, rules: seq<string>, n: ErrNode): ErrNode {
    AddMsgs(n, FailingMessages(v, rules))
  }

  /** `singlePassCheck($item, $key, $rules, $e)`. */
  function SinglePassCheck(item: seq<(Key, Value)>, key: string, rules: seq<string>, e: ErrNode): ErrNode
    decreases |key|, 0
  {
    if Contains(key, MidWildcard) then
      var (base, rest) := SplitFirst(key, MidWildcard);
      var slot := Slot(e.kids, base);
      match Field(item, base)
      case Some(Arr(elements)) =>
        e.(kids := Settle(e.kids, base, FanOut(elements, base, rest, rules, slot)))
      case _ =>
        e.(kids := e.kids[base := AddMsg(slot, MissingArray(base))])
    else
      DirectKeyCheck(item, key, rules, e)
  }

  /**
   The loop over the elements of `base` in `singlePassCheck`: each element's
   findings go into the location named by its key, which is unset again when
   nothing was reported there.
   */
  function FanOut(elements: seq<(Key, Value)>, base: string, rest: string, rules: seq<string>, n: ErrNode): ErrNode
    decreases |rest| + 1, |elements|
  {
    if elements == [] then n
    else
      var k := KeyString(elements[0].0);
      var slot := ElementCheck(elements[0].1, base, rest, rules, Slot(n.kids, k));
      FanOut(elements[1..], base, rest, rules, n.(kids := Settle(n.kids, k, slot)))
  }

  /**
   One iteration of that loop: the remainder is resolved against the element.
   (When the element is not an array PHP skips the unset with `continue`; the
   location then holds a message, so the unset would not fire anyway.)
   */
  function ElementCheck(sub: Value, base: string, rest: string, rules: seq<string>, slot: ErrNode): ErrNode
    decreases |rest| + 1, 0
  {
    if Contains(rest, MidWildcard) then
      if !sub.Arr? then AddMsg(slot, NotAContainer(base, sub))
      else SinglePassCheck(sub.entries, rest, rules, slot)
    else if rest == "" then
      ValidateValue(sub, rules, slot)
    else if !sub.Arr? then
      AddMsg(slot, NotAContainer(base, sub))
    else
      DirectKeyCheck(sub.entries, rest, rules, slot)
  }

  /** `directKeyCheck($item, $key, $rules, $e)`. */
  function DirectKeyCheck(item: seq<(Key, Value)>, key: string, rules: seq<string>, e: ErrNode): ErrNode {
    if EndsWith(key, EndWildcard) then
      var name := key[..|key| - 2];
      var slot := Slot(e.kids, name);
      match Field(item, name)
      case Some(Arr(elements)) =>
        e.(kids := Settle(e.kids, name, EachElement(elements, rules, slot)))
      case _ =>
        e.(kids := e.kids[name := AddMsg(slot, MissingArray(name))])
    else
      var slot := Slot(e.kids, key);
      var checked := match Field(item, key)
        case None => AddMsg(slot, MissingField(key))
        case Some(v) => ValidateValue(v, rules, slot);
      e.(kids := Settle(e.kids, key, checked))
  }

  /** The loop of `directKeyCheck` for a path ending in `.*`. */
  function EachElement(elements: seq<(Key, Value)>, rules: seq<string>, n: ErrNode): ErrNode {
    if elements == [] then n
    else
      var k := KeyString(elements[0].0);
      var slot := ValidateValue(elements[0].1, rules, Slot(n.kids, k));
      EachElement(elements[1..], rules, n.(kids := Settle(n.kids, k, slot)))
  }

  // ---------------------------------------------------------------------
  // Pruning, and nothing reported earlier is ever lost
  // ---------------------------------------------------------------------

  /**
   Resolving a path against a tidy report leaves it tidy (no empty location
   at any depth), keeps every message already there, and never touches the
   record-level message list.
   */
  lemma {:induction false} SinglePassCheckKeeps(item: seq<(Key, Value)>, key: string, rules: seq<string>, e: ErrNode)
    requires Tidy(e)
    decreases |key|, 0
    ensures var r := SinglePassCheck(item, key, rules, e);
      Tidy(r) && Extends(e, r) && r.msgs == e.msgs
  {
    if Contains(key, MidWildcard) {
      var (base, rest) := SplitFirst(key, MidWildcard);
      var slot := Slot(e.kids, base);
      match Field(item, base)
      case Some(Arr(elements)) =>
        FanOutKeeps(elements, base, rest, rules, slot);
        SettleKeeps(e, base, FanOut(elements, base, rest, rules, slot));
      case _ =>
        AddMsgsKeeps(slot, [MissingArray(base)]);
        SettleKeeps(e, base, AddMsg(slot, MissingArray(base)));
    } else {
      DirectKeyCheckKeeps(item, key, rules, e);
    }
  }

  lemma {:induction false} FanOutKeeps(elements: seq<(Key, Value)>, base: string, rest: string, rules: seq<string>, n: ErrNode)
    requires Tidy(n)
    decreases |rest| + 1, |elements|
    ensures var r := FanOut(elements, base, rest, rules, n);
      Tidy(r) && Extends(n, r) && r.msgs == n.msgs
  {
    if elements == [] {
      ExtendsRefl(n);
    } else {
      var k := KeyString(elements[0].0);
      var slot := ElementCheck(elements[0].1, base, rest, rules, Slot(n.kids, k));
      ElementCheckKeeps(elements[0].1, base, rest, rules, Slot(n.kids, k));
      SettleKeeps(n, k, slot);
      var n' := n.(kids := Settle(n.kids, k, slot));
      FanOutKeeps(elements[1..], base, rest, rules, n');
      ExtendsTrans(n, n', FanOut(elements[1..], base, rest, rules, n'));
    }
  }

  lemma {:induction false} ElementCheckKeeps(sub: Value, base: string, rest: string, rules: seq<string>, slot: ErrNode)
    requires Tidy(slot)
    decreases |rest| + 1, 0
    ensures var r := ElementCheck(sub, base, rest, rules, slot);
      Tidy(r) && Extends(slot, r)
  {
    if Contains(rest, MidWildcard) {
      if !sub.Arr? {
        AddMsgsKeeps(slot, [NotAContainer(base, sub)]);
      } else {
        SinglePassCheckKeeps(sub.entries, rest, rules, slot);
      }
    } else if rest == "" {
      AddMsgsKeeps(slot, FailingMessages(sub, rules));
    } else if !sub.Arr? {
      AddMsgsKeeps(slot, [NotAContainer(base, sub)]);
    } else {
      DirectKeyCheckKeeps(sub.entries, rest, rules, slot);
    }
  }

  lemma DirectKeyCheckKeeps(item: seq<(Key, Value)>, key: string, rules: seq<string>, e: ErrNode)
    requires Tidy(e)
    ensures var r := DirectKeyCheck(item, key, rules, e);
      Tidy(r) && Extends(e, r) && r.msgs == e.msgs
  {
    if EndsWith(key, EndWildcard) {
      var name := key[..|key| - 2];
      var slot := Slot(e.kids, name);
      match Field(item, name)
      case Some(Arr(elements)) =>
        EachElementKeeps(elements, rules, slot);
        SettleKeeps(e, name, EachElement(elements, rules, slot));
      case _ =>
        AddMsgsKeeps(slot, [MissingArray(name)]);
        SettleKeeps(e, name, AddMsg(slot, MissingArray(name)));
    } else {
      var slot := Slot(e.kids, key);
      match Field(item, key)
      case None =>
        AddMsgsKeeps(slot, [MissingField(key)]);
        SettleKeeps(e, key, AddMsg(slot, MissingField(key)));
      case Some(v) =>
        AddMsgsKeeps(slot, FailingMessages(v, rules));
        SettleKeeps(e, key, ValidateValue(v, rules, slot));
    }
  }

  lemma {:induction false} EachElementKeeps(elements: seq<(Key, Value)>, rules: seq<string>, n: ErrNode)
    requires Tidy(n)
    ensures var r := EachElement(elements, rules, n);
      Tidy(r) && Extends(n, r) && r.msgs == n.msgs
  {
    if elements == [] {
      ExtendsRefl(n);
    } else {
      var k := KeyString(elements[0].0);
      var slot := ValidateValue(elements[0].1, rules, Slot(n.kids, k));
      AddMsgsKeeps(Slot(n.kids, k), FailingMessages(elements[0].1, rules));
      SettleKeeps(n, k, slot);
      var n' := n.(kids := Settle(n.kids, k, slot));
      EachElementKeeps(elements[1..], rules, n');
      ExtendsTrans(n, n', EachElement(elements[1..], rules, n'));
    }
  }
}

module ResolverSpec {
  import opened Wrappers
  import opened Strings
  import opened Values
  import opened Rules
  import opened ErrorTree
  import opened Resolver

  /** `k` names the location of one of the elements. */
  predicate IsElementSlot(elements: seq<(Key, Value)>, k: string) {
    exists i :: 0 <= i < |elements| && KeyString(elements[i].0) == k
  }

  /** The locations the elements of an array can occupy. */
  function ElementSlots(elements: seq<(Key, Value)>): (r: set<string>)
    ensures forall k :: k in r <==> IsElementSlot(elements, k)
    ensures |r| <= |elements|
  {
    if elements == [] then {}
    else
      var r := {KeyString(elements[0].0)} + ElementSlots(elements[1..]);
      assert forall i :: 1 <= i < |elements| ==> elements[i] == elements[1..][i - 1];
      assert forall k :: IsElementSlot(elements[1..], k) ==> IsElementSlot(elements, k) by {
        forall k | IsElementSlot(elements[1..], k)
          ensures IsElementSlot(elements, k)
        {
          var i :| 0 <= i < |elements[1..]| && KeyString(elements[1..][i].0) == k;
          assert KeyString(elements[i + 1].0) == k;
        }
      }
      r
  }

  lemma WellFormedTail(elements: seq<(Key, Value)>)
    requires WellFormedArray(elements) && elements != []
    ensures WellFormedArray(elements[1..])
    ensures !IsElementSlot(elements[1..], KeyString(elements[0].0))
  {
    var t := elements[1..];
    forall i, j | 0 <= i < j < |t|
      ensures t[i].0 != t[j].0
    {
      assert t[i] == elements[i + 1] && t[j] == elements[j + 1];
    }
    if IsElementSlot(t, KeyString(elements[0].0)) {
      var i :| 0 <= i < |t| && KeyString(t[i].0) == KeyString(elements[0].0);
      assert t[i] == elements[i + 1];
      KeyStringInjective(t[i].0, elements[0].0);
    }
  }

  /**
   Over a well-formed array, the fan-out gives every element its own location,
   named by its key: the element's findings are added there and every other
   location is left as it was.
   */
  lemma {:induction false} FanOutSpec(elements: seq<(Key, Value)>, base: string, rest: string, rules: seq<string>, n: ErrNode)
    requires WellFormedArray(elements)
    ensures var r := FanOut(elements, base, rest, rules, n);
      && r.msgs == n.msgs
      && (forall i :: 0 <= i < |elements| ==>
            Slot(r.kids, KeyString(elements[i].0)) ==
              ElementCheck(elements[i].1, base, rest, rules, Slot(n.kids, KeyString(elements[i].0))))
      && (forall k :: !IsElementSlot(elements, k) ==> Slot(r.kids, k) == Slot(n.kids, k))
  {
    if elements != [] {
      var k0 := KeyString(elements[0].0);
      var slot := ElementCheck(elements[0].1, base, rest, rules, Slot(n.kids, k0));
      var n' := n.(kids := Settle(n.kids, k0, slot));
      var tail := elements[1..];
      WellFormedTail(elements);
      FanOutSpec(tail, base, rest, rules, n');
      var r := FanOut(tail, base, rest, rules, n');
      forall i | 0 <= i < |elements|
        ensures Slot(r.kids, KeyString(elements[i].0)) ==
          ElementCheck(elements[i].1, base, rest, rules, Slot(n.kids, KeyString(elements[i].0)))
      {
        if i > 0 {
          assert elements[i] == tail[i - 1];
        }
      }
      forall k | !IsElementSlot(elements, k)
        ensures Slot(r.kids, k) == Slot(n.kids, k)
      {
        forall i | 0 <= i < |tail|
          ensures KeyString(tail[i].0) != k
        {
          assert tail[i] == elements[i + 1];
        }
      }
    }
  }

  /** What one element contributes, read off from the kind of remainder. */
  lemma ElementCheckSpec(sub: Value, base: string, rest: string, rules: seq<string>, slot: ErrNode)
    ensures rest == "" ==>
      ElementCheck(sub, base, rest, rules, slot) == AddMsgs(slot, FailingMessages(sub, rules))
    ensures rest != "" && !sub.Arr? ==>
      ElementCheck(sub, base, rest, rules, slot) == AddMsg(slot, NotAContainer(base, sub))
    ensures rest != "" && sub.Arr? ==>
      ElementCheck(sub, base, rest, rules, slot) == SinglePassCheck(sub.entries, rest, rules, slot)
  {
    assert !Contains("", MidWildcard);
  }

  /**
   A path ending in `.*` checks the array's elements exactly as a path ending
   in `.*.` does: each element against the rules, filed under its key.
   */
  lemma {:induction false} EachElementIsFanOut(elements: seq<(Key, Value)>, base: string, rules: seq<string>, n: ErrNode)
    ensures EachElement(elements, rules, n) == FanOut(elements, base, "", rules, n)
  {
    if elements != [] {
      var k := KeyString(elements[0].0);
      ElementCheckSpec(elements[0].1, base, "", rules, Slot(n.kids, k));
      var n' := n.(kids := Settle(n.kids, k, ValidateValue(elements[0].1, rules, Slot(n.kids, k))));
      EachElementIsFanOut(elements[1..], base, rules, n');
    }
  }

  /**
   A plain path (no `.*.`, no trailing `.*`) names one literal key, dots and
   all. A missing key gets "Missing required field: key" and no rule is
   evaluated, `required` or not; a present key gets one message per failing
   rule in schema order; nothing else changes, and the key stays unset when
   there is nothing to report.
   */
  lemma PlainPath(item: seq<(Key, Value)>, key: string, rules: seq<string>, e: ErrNode)
    requires !Contains(key, MidWildcard) && !EndsWith(key, EndWildcard)
    requires Tidy(e)
    ensures var r := SinglePassCheck(item, key, rules, e);
      && r.msgs == e.msgs
      && (forall k :: k != key ==> Slot(r.kids, k) == Slot(e.kids, k))
      && (Field(item, key).None? ==>
            Slot(r.kids, key) == AddMsg(Slot(e.kids, key), MissingField(key)))
      && (Field(item, key).Some? ==>
            Slot(r.kids, key) == AddMsgs(Slot(e.kids, key), FailingMessages(Field(item, key).value, rules)))
      && (key in r.kids <==>
            key in e.kids || Field(item, key).None? || FailingMessages(Field(item, key).value, rules) != [])
  {
  }

  /**
   A path ending in `.*` (and without `.*.`): when the named field is missing
   or not an array, "Missing or invalid array field: name" is added under the
   name; otherwise each element's failing-rule messages are added under
   `name -> (string)key`, the element's own location.
   */
  lemma TrailingWildcard(item: seq<(Key, Value)>, key: string, rules: seq<string>, e: ErrNode)
    requires !Contains(key, MidWildcard) && EndsWith(key, EndWildcard)
    ensures var name := key[..|key| - 2];
      var r := SinglePassCheck(item, key, rules, e);
      var f := Field(item, name);
      && r.msgs == e.msgs
      && (forall k :: k != name ==> Slot(r.kids, k) == Slot(e.kids, k))
      && (!(f.Some? && f.value.Arr?) ==>
            Slot(r.kids, name) == AddMsg(Slot(e.kids, name), MissingArray(name)))
      && (f.Some? && f.value.Arr? && WellFormedArray(f.value.entries) ==>
            var before := Slot(e.kids, name);
            var after := Slot(r.kids, name);
            && after.msgs == before.msgs
            && (forall i :: 0 <= i < |f.value.entries| ==>
                  var k := KeyString(f.value.entries[i].0);
                  Slot(after.kids, k) == AddMsgs(Slot(before.kids, k), FailingMessages(f.value.entries[i].1, rules)))
            && (forall k :: !IsElementSlot(f.value.entries, k) ==> Slot(after.kids, k) == Slot(before.kids, k)))
  {
    var name := key[..|key| - 2];
    var f := Field(item, name);
    if f.Some? && f.value.Arr? && WellFormedArray(f.value.entries) {
      var before := Slot(e.kids, name);
      EachElementIsFanOut(f.value.entries, name, rules, before);
      FanOutSpec(f.value.entries, name, "", rules, before);
      forall i | 0 <= i < |f.value.entries|
        ensures var k := KeyString(f.value.entries[i].0);
          ElementCheck(f.value.entries[i].1, name, "", rules, Slot(before.kids, k)) ==
            AddMsgs(Slot(before.kids, k), FailingMessages(f.value.entries[i].1, rules))
      {
        ElementCheckSpec(f.value.entries[i].1, name, "", rules, Slot(before.kids, KeyString(f.value.entries[i].0)));
      }
    }
  }

  /**
   A path containing `.*.` is split at its first occurrence into `base` and
   `rest`. When `base` is missing or not an array, "Missing or invalid array
   field: base" is added under `base` and nothing is descended into;
   otherwise every element's findings for `rest` land under
   `base -> (string)key`, and nothing else changes.
   */
  lemma MidWildcardPath(item: seq<(Key, Value)>, key: string, rules: seq<string>, e: ErrNode)
    requires Contains(key, MidWildcard)
    ensures var (base, rest) := SplitFirst(key, MidWildcard);
      var r := SinglePassCheck(item, key, rules, e);
      var f := Field(item, base);
      && r.msgs == e.msgs
      && (forall k :: k != base ==> Slot(r.kids, k) == Slot(e.kids, k))
      && (!(f.Some? && f.value.Arr?) ==>
            Slot(r.kids, base) == AddMsg(Slot(e.kids, base), MissingArray(base)))
      && (f.Some? && f.value.Arr? && WellFormedArray(f.value.entries) ==>
            var before := Slot(e.kids, base);
            var after := Slot(r.kids, base);
            && after.msgs == before.msgs
            && (forall i :: 0 <= i < |f.value.entries| ==>
                  var k := KeyString(f.value.entries[i].0);
                  Slot(after.kids, k) == ElementCheck(f.value.entries[i].1, base, rest, rules, Slot(before.kids, k)))
            && (forall k :: !IsElementSlot(f.value.entries, k) ==> Slot(after.kids, k) == Slot(before.kids, k)))
  {
    var (base, rest) := SplitFirst(key, MidWildcard);
    var f := Field(item, base);
    if f.Some? && f.value.Arr? && WellFormedArray(f.value.entries) {
      FanOutSpec(f.value.entries, base, rest, rules, Slot(e.kids, base));
    }
  }

  /** A report over an array's element locations has at most one entry per element. */
  lemma AtMostOneEntryPerElement(elements: seq<(Key, Value)>, kids: map<string, ErrNode>)
    requires forall k :: k in kids ==> IsElementSlot(elements, k)
    ensures |kids| <= |elements|
  {
    var slots := ElementSlots(elements);
    assert kids.Keys <= slots;
    SubsetCardinality(kids.Keys, slots);
    assert |kids| == |kids.Keys|;
  }

  lemma {:induction false} SubsetCardinality<T>(a: set<T>, b: set<T>)
    requires a <= b
    ensures |a| <= |b|
    decreases b
  {
    if a != {} {
      var x :| x in a;
      SubsetCardinality(a - {x}, b - {x});
    }
  }

  /**
   Starting from an empty location, the fan-out makes at most one entry per
   element, each under that element's key, and an entry exists exactly for
   the elements that reported something.
   */
  lemma FanOutFresh(elements: seq<(Key, Value)>, base: string, rest: string, rules: seq<string>)
    requires WellFormedArray(elements)
    ensures var r := FanOut(elements, base, rest, rules, Empty);
      && r.msgs == []
      && (forall k :: k in r.kids ==> IsElementSlot(elements, k))
      && |r.kids| <= |elements|
      && (forall i :: 0 <= i < |elements| ==>
            var check := ElementCheck(elements[i].1, base, rest, rules, Empty);
            && (KeyString(elements[i].0) in r.kids <==> !check.IsEmpty())
            && (KeyString(elements[i].0) in r.kids ==> r.kids[KeyString(elements[i].0)] == check))
  {
    var r := FanOut(elements, base, rest, rules, Empty);
    FanOutSpec(elements, base, rest, rules, Empty);
    FanOutKeeps(elements, base, rest, rules, Empty);
    forall k | k in r.kids
      ensures IsElementSlot(elements, k)
    {
      TidySlot(r, k);
    }
    AtMostOneEntryPerElement(elements, r.kids);
    forall i | 0 <= i < |elements|
      ensures KeyString(elements[i].0) in r.kids <==> !ElementCheck(elements[i].1, base, rest, rules, Empty).IsEmpty()
    {
      TidySlot(r, KeyString(elements[i].0));
    }
  }

  /** Whether `field` reports anything for one element of a `base.*.field` path. */
  predicate FieldFails(sub: Value, field: string, rules: seq<string>) {
    || !sub.Arr?
    || Field(sub.entries, field).None?
    || FailingMessages(Field(sub.entries, field).value, rules) != []
  }

  /**
   For `base.*.field` against a record whose `base` is an array of k
   elements: at most k entries appear under `base`, keyed by element, and an
   element has an entry exactly when `field` fails on it.
   */
  lemma WildcardFieldFanOut(item: seq<(Key, Value)>, base: string, field: string, rules: seq<string>)
    requires !Contains(base + ".*", MidWildcard)
    requires field != "" && !Contains(field, MidWildcard) && !EndsWith(field, EndWildcard)
    requires Field(item, base).Some? && Field(item, base).value.Arr?
    requires WellFormedArray(Field(item, base).value.entries)
    ensures var elements := Field(item, base).value.entries;
      var r := SinglePassCheck(item, base + MidWildcard + field, rules, Empty);
      var under := Slot(r.kids, base);
      && r.kids.Keys <= {base}
      && under.msgs == []
      && |under.kids| <= |elements|
      && (forall i :: 0 <= i < |elements| ==>
            (KeyString(elements[i].0) in under.kids <==> FieldFails(elements[i].1, field, rules)))
  {
    var key := base + MidWildcard + field;
    SplitAtFirstWildcard(base, field);
    var elements := Field(item, base).value.entries;
    FanOutFresh(elements, base, field, rules);
    forall i | 0 <= i < |elements|
      ensures !ElementCheck(elements[i].1, base, field, rules, Empty).IsEmpty() <==>
        FieldFails(elements[i].1, field, rules)
    {
      var sub := elements[i].1;
      ElementCheckSpec(sub, base, field, rules, Empty);
      if sub.Arr? {
        PlainPath(sub.entries, field, rules, Empty);
      }
    }
  }

  /** Appending `.*.` and a remainder to a base free of `.*.` splits back at that very spot. */
  lemma SplitAtFirstWildcard(base: string, rest: string)
    requires !Contains(base + ".*", MidWildcard)
    ensures Contains(base + MidWildcard + rest, MidWildcard)
    ensures SplitFirst(base + MidWildcard + rest, MidWildcard) == (base, rest)
  {
    var key := base + MidWildcard + rest;
    var prefix := base + ".*";
    ContainsIff(prefix, MidWildcard);
    forall j | 0 <= j < |base|
      ensures !OccursAt(key, MidWildcard, j)
    {
      if OccursAt(key, MidWildcard, j) {
        assert key[j..j + 3] == prefix[j..j + 3];
        assert OccursAt(prefix, MidWildcard, j);
      }
    }
    SplitFirstUnique(key, MidWildcard, base, rest);
  }

  /** `name.*.` and `name.*` are the same check. */
  lemma EquivalentWildcardForms(item: seq<(Key, Value)>, name: string, rules: seq<string>, e: ErrNode)
    requires !Contains(name + ".*", MidWildcard)
    ensures SinglePassCheck(item, name + MidWildcard, rules, e) == SinglePassCheck(item, name + EndWildcard, rules, e)
  {
    SplitAtFirstWildcard(name, "");
    assert name + MidWildcard + "" == name + MidWildcard;
    var key := name + EndWildcard;
    assert EndsWith(key, EndWildcard);
    assert key[..|key| - 2] == name;
    match Field(item, name)
    case Some(Arr(elements)) =>
      EachElementIsFanOut(elements, name, rules, Slot(e.kids, name));
    case _ =>
  }

  /**
   The "Missing or invalid array field" message is added once per schema
   path, with no de-duplication: two paths over the same missing base leave
   it twice.
   */
  lemma MissingBaseRepeats(item: seq<(Key, Value)>, key1: string, key2: string, rules1: seq<string>, rules2: seq<string>, e: ErrNode)
    requires Contains(key1, MidWildcard) && Contains(key2, MidWildcard)
    requires SplitFirst(key1, MidWildcard).0 == SplitFirst(key2, MidWildcard).0
    requires Field(item, SplitFirst(key1, MidWildcard).0).None?
    ensures var base := SplitFirst(key1, MidWildcard).0;
      var r := SinglePassCheck(item, key2, rules2, SinglePassCheck(item, key1, rules1, e));
      Slot(r.kids, base).msgs == Slot(e.kids, base).msgs + [MissingArray(base), MissingArray(base)]
  {
  }
}
