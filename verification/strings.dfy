/**
 The string primitives the validator builds its path handling on, as PHP
 defines them: `str_contains`, `str_ends_with`, `explode` (with and without a
 limit of 2) and the `.`-segment split that yields a path's first segment.
 */
module Strings {
  import opened Wrappers

  /** True when `pat` occurs in `s` starting at position `i`. */
  predicate OccursAt(s: string, pat: string, i: nat) {
    i + |pat| <= |s| && s[i..i + |pat|] == pat
  }

  /** The position of the first occurrence of `pat` in `s` at or after `from`. */
  function FindFrom(s: string, pat: string, from: nat): (r: Option<nat>)
    requires from <= |s|
    decreases |s| - from
    ensures r.Some? ==> from <= r.value && OccursAt(s, pat, r.value)
    ensures r.Some? ==> forall j :: from <= j < r.value ==> !OccursAt(s, pat, j)
    ensures r.None? ==> forall j :: from <= j ==> !OccursAt(s, pat, j)
  {
    if OccursAt(s, pat, from) then Some(from)
    else if from == |s| then None
    else FindFrom(s, pat, from + 1)
  }

  /** PHP `str_contains($s, $pat)`. */
  predicate Contains(s: string, pat: string) {
    FindFrom(s, pat, 0).Some?
  }

  lemma ContainsIff(s: string, pat: string)
    ensures Contains(s, pat) <==> exists j: nat :: OccursAt(s, pat, j)
  {
    if !Contains(s, pat) {
      assert forall j: nat :: !OccursAt(s, pat, j);
    }
  }

  /** A one-character pattern occurs exactly where that character does. */
  lemma ContainsChar(s: string, c: char)
    ensures Contains(s, [c]) <==> c in s
  {
    ContainsIff(s, [c]);
    if c in s {
      var j :| 0 <= j < |s| && s[j] == c;
      assert OccursAt(s, [c], j);
    }
    if Contains(s, [c]) {
      var j: nat :| OccursAt(s, [c], j);
      assert s[j] == s[j..j + 1][0];
    }
  }

  /**
   PHP `explode($pat, $s, 2)` when `str_contains($s, $pat)`: the text before the
   first occurrence of `pat`, and everything after it.
   */
  function SplitFirst(s: string, pat: string): (r: (string, string))
    requires Contains(s, pat)
    ensures r.0 + pat + r.1 == s
    ensures forall j :: 0 <= j < |r.0| ==> !OccursAt(s, pat, j)
  {
    var i := FindFrom(s, pat, 0).value;
    assert s == s[..i] + s[i..i + |pat|] + s[i + |pat|..];
    (s[..i], s[i + |pat|..])
  }

  /** Splitting at a character leaves that character out of the part before it. */
  lemma SplitFirstCharFree(s: string, c: char)
    requires Contains(s, [c])
    ensures c !in SplitFirst(s, [c]).0
  {
    var base := SplitFirst(s, [c]).0;
    assert base <= s;
    forall j | 0 <= j < |base|
      ensures base[j] != c
    {
      assert !OccursAt(s, [c], j);
      assert s[j..j + 1] == [s[j]];
    }
  }

  /** The first occurrence found by SplitFirst is the only place the split can be made. */
  lemma SplitFirstUnique(s: string, pat: string, base: string, rest: string)
    requires base + pat + rest == s
    requires forall j :: 0 <= j < |base| ==> !OccursAt(s, pat, j)
    ensures Contains(s, pat) && SplitFirst(s, pat) == (base, rest)
  {
    assert s[|base|..|base| + |pat|] == pat;
    assert OccursAt(s, pat, |base|);
    var i := FindFrom(s, pat, 0).value;
    assert i == |base|;
    assert s[..i] == base;
    assert s[i + |pat|..] == rest;
  }

  /** PHP `str_ends_with($s, $suffix)`. */
  predicate EndsWith(s: string, suffix: string) {
    |suffix| <= |s| && s[|s| - |suffix|..] == suffix
  }

  /** PHP `explode($c, $s)` for a one-character separator. */
  function Explode(s: string, c: char): (r: seq<string>)
    ensures |r| >= 1
    ensures forall i :: 0 <= i < |r| ==> c !in r[i]
  {
    if s == [] then [""]
    else
      var tail := Explode(s[1..], c);
      if s[0] == c then [""] + tail
      else [[s[0]] + tail[0]] + tail[1..]
  }

  /** PHP `implode($c, $parts)`: the inverse of Explode. */
  function Implode(parts: seq<string>, c: char): string
    requires |parts| >= 1
  {
    if |parts| == 1 then parts[0]
    else parts[0] + [c] + Implode(parts[1..], c)
  }

  /** Exploding and re-joining loses nothing. */
  lemma {:induction false} ImplodeExplode(s: string, c: char)
    ensures Implode(Explode(s, c), c) == s
  {
    if s != [] {
      var tail := Explode(s[1..], c);
      ImplodeExplode(s[1..], c);
      if s[0] != c {
        if |tail| > 1 {
          assert Implode(tail, c) == tail[0] + [c] + Implode(tail[1..], c);
        }
      }
    }
  }

  /** Joining separator-free parts and exploding again gives the parts back. */
  lemma {:induction false} ExplodeImplode(parts: seq<string>, c: char)
    requires |parts| >= 1
    requires forall i :: 0 <= i < |parts| ==> c !in parts[i]
    ensures Explode(Implode(parts, c), c) == parts
  {
    if |parts| == 1 {
      ExplodeNoSeparator(parts[0], c);
    } else {
      ExplodeImplode(parts[1..], c);
      ExplodePrefix(parts[0], [c] + Implode(parts[1..], c), c);
      assert parts[0] + [c] + Implode(parts[1..], c) == parts[0] + ([c] + Implode(parts[1..], c));
      assert ([c] + Implode(parts[1..], c))[1..] == Implode(parts[1..], c);
      assert [parts[0]] + parts[1..] == parts;
    }
  }

  lemma {:induction false} ExplodeNoSeparator(s: string, c: char)
    requires c !in s
    ensures Explode(s, c) == [s]
  {
    if s != [] {
      assert c !in s[1..];
      ExplodeNoSeparator(s[1..], c);
      assert [s[0]] + s[1..] == s;
    }
  }

  /** A separator-free prefix is glued to the first piece of what follows it. */
  lemma {:induction false} ExplodePrefix(p: string, t: string, c: char)
    requires c !in p
    requires t != [] && t[0] == c
    ensures Explode(p + t, c) == [p] + Explode(t[1..], c)
  {
    if p == [] {
      assert p + t == t;
    } else {
      assert c !in p[1..];
      ExplodePrefix(p[1..], t, c);
      assert (p + t)[1..] == p[1..] + t;
      assert (p + t)[0] == p[0] != c;
      var tail := Explode(p[1..] + t, c);
      assert tail[0] == p[1..] && tail[1..] == Explode(t[1..], c);
      assert [p[0]] + p[1..] == p;
    }
  }

  /** PHP `explode('.', $s)[0]`: the path up to its first dot. */
  function FirstSegment(s: string): (r: string)
    ensures '.' !in r
    ensures r <= s
    ensures |r| == |s| || s[|r|] == '.'
  {
    if s == [] || s[0] == '.' then ""
    else [s[0]] + FirstSegment(s[1..])
  }

  /** FirstSegment is the head of PHP's `explode('.', ...)`. */
  lemma {:induction false} FirstSegmentIsExplodeHead(s: string)
    ensures FirstSegment(s) == Explode(s, '.')[0]
  {
    if s != [] && s[0] != '.' {
      FirstSegmentIsExplodeHead(s[1..]);
    }
  }
}
