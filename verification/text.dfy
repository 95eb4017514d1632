/**
 * The string primitives the header utilities call: ordinal case-insensitive comparison and
 * `String.IndexOf(value, StringComparison.OrdinalIgnoreCase)`.
 */
module Text {

  /** Ordinal case folding, restricted to the ASCII letters. */
  function FoldAscii(c: char): (f: char)
    ensures 'a' <= c <= 'z' ==> f as int == c as int - 32
    ensures !('a' <= c <= 'z') ==> f == c
  {
    if 'a' <= c <= 'z' then (c as int - 32) as char else c
  }

  /** Two strings that are equal under ordinal case folding. */
  predicate EqualsIgnoreCase(a: seq<char>, b: seq<char>) {
    |a| == |b| && forall k :: 0 <= k < |a| ==> FoldAscii(a[k]) == FoldAscii(b[k])
  }

  /** `target` occurs in `s` at position `i`, ignoring case. */
  predicate MatchesAt(s: seq<char>, target: seq<char>, i: nat) {
    i + |target| <= |s| && EqualsIgnoreCase(s[i..i + |target|], target)
  }

  /** One mismatching character rules out an occurrence. */
  lemma MismatchAt(s: seq<char>, target: seq<char>, i: nat, k: nat)
    requires k < |target|
    requires i + k < |s| ==> FoldAscii(s[i + k]) != FoldAscii(target[k])
    ensures !MatchesAt(s, target, i)
  {
  }

  /** The first occurrence of `target` in `s` at or after `from`, or -1 when there is none. */
  function IndexOfFrom(s: seq<char>, target: seq<char>, from: nat): (r: int)
    ensures r == -1 || (from <= r && MatchesAt(s, target, r))
    ensures r == -1 ==> forall i :: from <= i ==> !MatchesAt(s, target, i)
    ensures r != -1 ==> forall i :: from <= i < r ==> !MatchesAt(s, target, i)
    decreases |s| - from
  {
    if from + |target| > |s| then -1
    else if MatchesAt(s, target, from) then from
    else IndexOfFrom(s, target, from + 1)
  }

  /** `String.IndexOf` with ordinal case-insensitive comparison; an empty target is found at 0. */
  function IndexOf(s: seq<char>, target: seq<char>): (r: int)
    ensures r == -1 <==> forall i :: 0 <= i ==> !MatchesAt(s, target, i)
    ensures r != -1 ==> 0 <= r && r + |target| <= |s| && MatchesAt(s, target, r)
    ensures r != -1 ==> forall i :: 0 <= i < r ==> !MatchesAt(s, target, i)
  {
    IndexOfFrom(s, target, 0)
  }
}
