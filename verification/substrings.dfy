/**
  Substring containment: the meaning of Python's `needle in haystack` on two
  `str` values, which the request filter applies four times per URL.
 */
module Substrings {

  /** `t` occurs in `s` starting at index `i`. */
  ghost predicate OccursAt(s: string, t: string, i: int)
  {
    0 <= i && i + |t| <= |s| && s[i..i + |t|] == t
  }

  /** `t` occurs somewhere in `s` (the empty string occurs in every string). */
  ghost predicate Occurs(s: string, t: string)
  {
    exists i :: OccursAt(s, t, i)
  }

  /** Executable containment test, Python's `t in s`. */
  function Contains(s: string, t: string): (b: bool)
    ensures b <==> Occurs(s, t)
    decreases |s|
  {
    if t <= s then
      assert OccursAt(s, t, 0);
      true
    else if |s| == 0 then
      false
    else
      DropFirstKeepsOccurrences(s, t);
      Contains(s[1..], t)
  }

  /** When `t` is not a prefix of `s`, dropping the first character of `s` loses no occurrence. */
  lemma DropFirstKeepsOccurrences(s: string, t: string)
    requires |s| > 0 && !(t <= s)
    ensures Occurs(s, t) <==> Occurs(s[1..], t)
  {
    forall i | OccursAt(s, t, i)
      ensures OccursAt(s[1..], t, i - 1)
    {
      assert s[1..][i - 1..i - 1 + |t|] == s[i..i + |t|];
    }
    forall i | OccursAt(s[1..], t, i)
      ensures OccursAt(s, t, i + 1)
    {
      assert s[1..][i..i + |t|] == s[i + 1..i + 1 + |t|];
    }
  }
}
