/** The string operations the rules rely on: Python's substring test
    `needle in s`, and the case-insensitive `icontains` lookup. */
module Text {

  /** `needle` occurs in `s` starting at index `i`. */
  ghost predicate OccursAt(needle: string, s: string, i: int) {
    0 <= i && i + |needle| <= |s| && s[i..i + |needle|] == needle
  }

  /** Python's `needle in s` on two strings, scanning from the left. */
  predicate Contains(s: string, needle: string)
    decreases |s|
  {
    if |s| < |needle| then false
    else s[..|needle|] == needle || Contains(s[1..], needle)
  }

  /** The scan finds exactly the occurrences at some index. */
  lemma {:induction false} ContainsIff(s: string, needle: string)
    ensures Contains(s, needle) <==> exists i :: OccursAt(needle, s, i)
    decreases |s|
  {
    if |s| < |needle| {
    } else if s[..|needle|] == needle {
      assert OccursAt(needle, s, 0);
    } else {
      ContainsIff(s[1..], needle);
      if Contains(s[1..], needle) {
        var i :| OccursAt(needle, s[1..], i);
        assert s[1..][i..i + |needle|] == s[i + 1..i + 1 + |needle|];
        assert OccursAt(needle, s, i + 1);
      }
      if i :| OccursAt(needle, s, i) {
        assert i != 0;
        assert s[1..][i - 1..i - 1 + |needle|] == s[i..i + |needle|];
        assert OccursAt(needle, s[1..], i - 1);
      }
    }
  }

  /** ASCII case folding of one character. */
  function LowerChar(c: char): char {
    if 'A' <= c <= 'Z' then (c as int - 'A' as int + 'a' as int) as char else c
  }

  /** ASCII case folding of a string, character by character. */
  function Lower(s: string): (r: string)
    ensures |r| == |s|
  {
    seq(|s|, i requires 0 <= i < |s| => LowerChar(s[i]))
  }

  /** Case-insensitive substring test, the `icontains` lookup. */
  predicate IContains(s: string, needle: string) {
    Contains(Lower(s), Lower(needle))
  }

  /** Folding twice is folding once. */
  lemma LowerIdempotent(s: string)
    ensures Lower(Lower(s)) == Lower(s)
  {
    assert forall i :: 0 <= i < |s| ==> Lower(Lower(s))[i] == Lower(s)[i];
  }

  /** Folding commutes with slicing. */
  lemma LowerSlice(s: string, i: int, j: int)
    requires 0 <= i <= j <= |s|
    ensures Lower(s)[i..j] == Lower(s[i..j])
  {
  }

  /** An exact occurrence is also a case-insensitive one. */
  lemma ContainsImpliesIContains(s: string, needle: string)
    requires Contains(s, needle)
    ensures IContains(s, needle)
  {
    ContainsIff(s, needle);
    var i :| OccursAt(needle, s, i);
    LowerSlice(s, i, i + |needle|);
    assert OccursAt(Lower(needle), Lower(s), i);
    ContainsIff(Lower(s), Lower(needle));
  }

  /** Whether a case-insensitive match succeeds does not depend on the case
      of the needle. */
  lemma IContainsIgnoresNeedleCase(s: string, needle: string)
    ensures IContains(s, needle) == IContains(s, Lower(needle))
  {
    LowerIdempotent(needle);
  }
}
