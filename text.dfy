/**
 * String helpers shared by the whole model: Python's `str.lower` restricted
 * to ASCII letters, and Python's substring test `k in s`.
 */
module Text {

  /** Lower-cases one character; only 'A'..'Z' change. */
  function LowerChar(c: char): (r: char)
    ensures !('A' <= r <= 'Z')
    ensures !('A' <= c <= 'Z') ==> r == c
    ensures 'A' <= c <= 'Z' ==> 'a' <= r <= 'z'
  {
    if 'A' <= c <= 'Z' then (c as int - 'A' as int + 'a' as int) as char else c
  }

  /** `s.lower()`: a length-preserving, character-by-character map. */
  function Lower(s: string): (r: string)
    ensures |r| == |s|
    ensures forall i :: 0 <= i < |s| ==> r[i] == LowerChar(s[i])
  {
    seq(|s|, i requires 0 <= i < |s| => LowerChar(s[i]))
  }

  /** Lower-casing commutes with slicing (indices on `s.lower()` are indices on `s`). */
  lemma LowerSlice(s: string, i: nat, j: nat)
    requires i <= j <= |s|
    ensures Lower(s)[i..j] == Lower(s[i..j])
  {
  }

  /** `k` occurs in `s` starting at index `i`. */
  predicate OccursAt(k: string, s: string, i: int)
  {
    0 <= i && i + |k| <= |s| && s[i..i + |k|] == k
  }

  /** Python's `k in s`; the empty string is in every string. */
  predicate Contains(s: string, k: string)
  {
    exists i :: 0 <= i <= |s| && OccursAt(k, s, i)
  }

  /** The empty string occurs in every string, as in Python. */
  lemma ContainsEmpty(s: string)
    ensures Contains(s, "")
  {
    assert OccursAt("", s, 0);
  }
}
