/** Substring search and JavaScript's `String.prototype.replace` with a string
    pattern and an empty replacement: only the FIRST occurrence is removed. */
module Strings {
  import opened Wrappers

  /** `pat` occurs in `s` starting at index `i`. */
  predicate OccursAt(s: string, pat: string, i: nat) {
    i + |pat| <= |s| && s[i..i + |pat|] == pat
  }

  /** `i` is the leftmost index at which `pat` occurs in `s`. */
  predicate FirstOccurrence(s: string, pat: string, i: nat) {
    OccursAt(s, pat, i) && forall j: nat :: j < i ==> !OccursAt(s, pat, j)
  }

  /** `pat` does not occur anywhere in `s`. */
  ghost predicate Absent(s: string, pat: string) {
    forall j: nat :: !OccursAt(s, pat, j)
  }

  /** The leftmost occurrence of `pat` at or after `from`, as `s.indexOf(pat, from)`
      does, with `None` for -1. */
  function IndexOfFrom(s: string, pat: string, from: nat): (r: Option<nat>)
    ensures r.Some? ==> from <= r.value && OccursAt(s, pat, r.value)
    ensures r.Some? ==> forall j: nat :: from <= j < r.value ==> !OccursAt(s, pat, j)
    ensures r.None? ==> forall j: nat :: from <= j ==> !OccursAt(s, pat, j)
    decreases |s| - from
  {
    if OccursAt(s, pat, from) then Some(from)
    else if from + |pat| >= |s| then None
    else IndexOfFrom(s, pat, from + 1)
  }

  /** `s.indexOf(pat)`: the first occurrence, or `None` when there is none. */
  function IndexOf(s: string, pat: string): (r: Option<nat>)
    ensures r.Some? <==> !Absent(s, pat)
    ensures r.Some? ==> FirstOccurrence(s, pat, r.value)
  {
    IndexOfFrom(s, pat, 0)
  }

  /** `s.replace(pat, '')`: the first occurrence of `pat` is cut out and every
      other character is kept in order; without an occurrence `s` is returned. */
  function RemoveFirst(s: string, pat: string): (r: string)
    ensures Absent(s, pat) ==> r == s
    ensures forall i: nat :: FirstOccurrence(s, pat, i) ==> r == s[..i] + s[i + |pat|..]
    ensures !Absent(s, pat) ==> |r| == |s| - |pat|
  {
    match IndexOf(s, pat)
    case None => s
    case Some(i) => s[..i] + s[i + |pat|..]
  }

  /** Putting the removed pattern back where it was found restores the input:
      nothing but that one occurrence is lost. */
  lemma RemoveFirstReinsert(s: string, pat: string, i: nat)
    requires FirstOccurrence(s, pat, i)
    ensures i <= |RemoveFirst(s, pat)|
    ensures RemoveFirst(s, pat)[..i] + pat + RemoveFirst(s, pat)[i..] == s
  {
    var r := RemoveFirst(s, pat);
    assert r == s[..i] + s[i + |pat|..];
    assert r[..i] == s[..i];
    assert r[i..] == s[i + |pat|..];
    assert s == s[..i] + s[i..i + |pat|] + s[i + |pat|..];
  }

  /** An occurrence of `pat` that starts at or after the end of the first
      one survives the removal, shifted left by `|pat|`. */
  lemma RemoveFirstKeepsLaterOccurrence(s: string, pat: string, i: nat, j: nat)
    requires FirstOccurrence(s, pat, i)
    requires OccursAt(s, pat, j) && j >= i + |pat|
    ensures OccursAt(RemoveFirst(s, pat), pat, j - |pat|)
  {
    var n := |pat|;
    var r := RemoveFirst(s, pat);
    var tail := s[i + n..];
    assert r == s[..i] + tail;
    assert r[i..] == tail;
    assert r[j - n..] == tail[j - n - i..];
    assert tail[j - n - i..] == s[j..];
    assert r[j - n..j] == s[j..][..n];
  }

  /** Removing a pattern that prefixes the input yields exactly the rest. */
  lemma RemoveFirstOfPrefixed(pat: string, rest: string)
    ensures RemoveFirst(pat + rest, pat) == rest
  {
    var s := pat + rest;
    assert s[0..|pat|] == pat;
    assert FirstOccurrence(s, pat, 0);
    assert s[|pat|..] == rest;
  }
}
