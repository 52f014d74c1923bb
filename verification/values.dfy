/**
 PHP values as the validator receives them from `json_decode(..., true)`:
 scalars and arrays. A PHP array is an ordered map whose keys are integers or
 strings; a JSON list becomes an array keyed 0..n-1 and a JSON object an
 array keyed by its member names.
 */
module Values {
  import opened Wrappers
  import opened PhpNumbers

  /** A PHP array key. */
  datatype Key = IntKey(i: int) | StrKey(s: string)

  /**
   A decoded value. A float is represented by the two facts the validator
   observes of it: its `(int)` truncation and whether it equals 0.0.
   */
  datatype Value =
    | Null
    | Bool(b: bool)
    | Int(i: int)
    | Float(trunc: int, zero: bool)
    | Str(s: string)
    | Arr(entries: seq<(Key, Value)>)

  /** `(string)$k`: how a key prints, and how the validator names an element's slot. */
  function KeyString(k: Key): string {
    match k
    case IntKey(i) => IntToString(i)
    case StrKey(s) => s
  }

  /** The key PHP actually uses when the string `s` indexes an array ("7" becomes 7). */
  function ArrayKey(s: string): (k: Key)
    ensures KeyString(k) == s
    ensures k.IntKey? <==> IsIntegerKeyString(s)
  {
    if IsIntegerKeyString(s) then
      IntegerKeyRoundTrip(s);
      IntKey(IntegerKeyValue(s))
    else
      StrKey(s)
  }

  /** PHP never stores an integer-looking string as a string key. */
  predicate WellFormedKey(k: Key) {
    k.StrKey? ==> !IsIntegerKeyString(k.s)
  }

  /** Every well-formed key is the key its own string form indexes. */
  lemma ArrayKeyOfKeyString(k: Key)
    requires WellFormedKey(k)
    ensures ArrayKey(KeyString(k)) == k
  {
    if k.IntKey? {
      IntToStringIsIntegerKey(k.i);
    }
  }

  /** Distinct well-formed keys print differently, so element slots never share a name. */
  lemma KeyStringInjective(k1: Key, k2: Key)
    requires WellFormedKey(k1) && WellFormedKey(k2)
    requires KeyString(k1) == KeyString(k2)
    ensures k1 == k2
  {
    ArrayKeyOfKeyString(k1);
    ArrayKeyOfKeyString(k2);
  }

  /** The shape every PHP array has: well-formed keys, each at most once. */
  predicate WellFormedArray(entries: seq<(Key, Value)>) {
    && (forall i :: 0 <= i < |entries| ==> WellFormedKey(entries[i].0))
    && (forall i, j :: 0 <= i < j < |entries| ==> entries[i].0 != entries[j].0)
  }

  /** `$a[$k]` when `array_key_exists($k, $a)`, or None. */
  function Lookup(entries: seq<(Key, Value)>, k: Key): (r: Option<Value>)
    ensures r.Some? ==> exists i :: 0 <= i < |entries| && entries[i] == (k, r.value)
    ensures r.None? <==> forall i :: 0 <= i < |entries| ==> entries[i].0 != k
  {
    if entries == [] then None
    else if entries[0].0 == k then Some(entries[0].1)
    else
      var r := Lookup(entries[1..], k);
      assert forall i :: 1 <= i < |entries| ==> entries[i] == entries[1..][i - 1];
      r
  }

  /** In a well-formed array, the entry at a key is the one Lookup finds. */
  lemma LookupFindsEntry(entries: seq<(Key, Value)>, i: nat)
    requires WellFormedArray(entries) && i < |entries|
    ensures Lookup(entries, entries[i].0) == Some(entries[i].1)
  {
    var r := Lookup(entries, entries[i].0);
    var j :| 0 <= j < |entries| && entries[j] == (entries[i].0, r.value);
    assert i == j;
  }

  /** `array_key_exists($name, $item) ? $item[$name] : none` for a string `$name`. */
  function Field(item: seq<(Key, Value)>, name: string): Option<Value> {
    Lookup(item, ArrayKey(name))
  }

  /** PHP `range($lo, $hi)`: counts down when `$lo > $hi`, so `range(0, -1)` is `[0, -1]`. */
  function PhpRange(lo: int, hi: int): (r: seq<int>)
    decreases if lo <= hi then hi - lo else lo - hi
  {
    if lo == hi then [lo]
    else if lo < hi then [lo] + PhpRange(lo + 1, hi)
    else [lo] + PhpRange(lo - 1, hi)
  }

  lemma {:induction false} AscendingRange(lo: int, hi: int)
    requires lo <= hi
    decreases hi - lo
    ensures |PhpRange(lo, hi)| == hi - lo + 1
    ensures forall j :: 0 <= j < |PhpRange(lo, hi)| ==> PhpRange(lo, hi)[j] == lo + j
  {
    if lo < hi {
      AscendingRange(lo + 1, hi);
    }
  }

  /** PHP `array_keys($a)`. */
  function ArrayKeys(entries: seq<(Key, Value)>): seq<Key> {
    seq(|entries|, i requires 0 <= i < |entries| => entries[i].0)
  }

  function IntKeys(xs: seq<int>): seq<Key> {
    seq(|xs|, i requires 0 <= i < |xs| => IntKey(xs[i]))
  }

  /** `array_keys($a) === range(0, count($a) - 1)`. */
  predicate IsList(entries: seq<(Key, Value)>) {
    ArrayKeys(entries) == IntKeys(PhpRange(0, |entries| - 1))
  }

  /**
   An array is a list exactly when it is non-empty and its keys are 0..n-1 in
   order; the empty array is not a list, because `range(0, -1)` has two elements.
   */
  lemma IsListIff(entries: seq<(Key, Value)>)
    ensures IsList(entries) <==>
      |entries| > 0 && forall i :: 0 <= i < |entries| ==> entries[i].0 == IntKey(i)
  {
    var n := |entries|;
    if n == 0 {
      assert PhpRange(0, -1) == [0, -1];
    } else {
      AscendingRange(0, n - 1);
      if forall i :: 0 <= i < n ==> entries[i].0 == IntKey(i) {
        assert ArrayKeys(entries) == IntKeys(PhpRange(0, n - 1));
      }
      if IsList(entries) {
        forall i | 0 <= i < n
          ensures entries[i].0 == IntKey(i)
        {
          assert ArrayKeys(entries)[i] == IntKeys(PhpRange(0, n - 1))[i];
        }
      }
    }
  }

  /** PHP `empty($v)`: null, false, 0, 0.0, "", "0" and []. */
  predicate IsEmptyValue(v: Value) {
    match v
    case Null => true
    case Bool(b) => !b
    case Int(i) => i == 0
    case Float(_, zero) => zero
    case Str(s) => s == "" || s == "0"
    case Arr(entries) => entries == []
  }

  /** PHP `gettype($v)`. */
  function TypeName(v: Value): string {
    match v
    case Null => "NULL"
    case Bool(_) => "boolean"
    case Int(_) => "integer"
    case Float(_, _) => "double"
    case Str(_) => "string"
    case Arr(_) => "array"
  }

  /** `is_numeric($v) ? (int)$v : none`. */
  function NumberValue(v: Value): Option<int> {
    match v
    case Int(i) => Some(i)
    case Float(trunc, _) => Some(trunc)
    case Str(s) => NumericValue(s)
    case _ => None
  }
}
