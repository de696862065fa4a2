/** Substring search, as Go's `strings.Contains` performs it. Strings are
    sequences of characters; the one pattern the model searches for is plain
    ASCII, so searching characters and searching UTF-8 bytes agree. */
module Strings {

  /** `sub` occurs in `s` at offset `i`. */
  ghost predicate OccursAt(sub: string, s: string, i: int)
  {
    0 <= i && i + |sub| <= |s| && s[i..i + |sub|] == sub
  }

  /** `sub` occurs somewhere in `s` (the empty string occurs everywhere). */
  ghost predicate Occurs(sub: string, s: string)
  {
    exists i :: OccursAt(sub, s, i)
  }

  /** Left-to-right search for `sub` in `s`. */
  function Contains(s: string, sub: string): (r: bool)
    ensures r <==> Occurs(sub, s)
    decreases |s|
  {
    if |s| < |sub| then
      assert forall i :: !OccursAt(sub, s, i);
      false
    else if s[..|sub|] == sub then
      assert OccursAt(sub, s, 0);
      true
    else
      ShiftOccurs(sub, s);
      Contains(s[1..], sub)
  }

  /** When `sub` is not a prefix of `s`, it occurs in `s` exactly when it
      occurs in `s` without its first character. */
  lemma ShiftOccurs(sub: string, s: string)
    requires |sub| <= |s| && s[..|sub|] != sub
    ensures Occurs(sub, s) <==> Occurs(sub, s[1..])
  {
    if Occurs(sub, s) {
      var i :| OccursAt(sub, s, i);
      assert i != 0;
      assert s[1..][i - 1..i - 1 + |sub|] == s[i..i + |sub|];
      assert OccursAt(sub, s[1..], i - 1);
    }
    if Occurs(sub, s[1..]) {
      var j :| OccursAt(sub, s[1..], j);
      assert s[1..][j..j + |sub|] == s[j + 1..j + 1 + |sub|];
      assert OccursAt(sub, s, j + 1);
    }
  }
}
