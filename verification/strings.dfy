/** Substring search, as JavaScript's `String.prototype.includes` does it. */
module Strings {

  /** `t` occurs in `s` starting at position `i`. */
  predicate OccursAt(s: string, t: string, i: nat) {
    i + |t| <= |s| && s[i..i + |t|] == t
  }

  /** `s.includes(t)`: some position of `s` starts an occurrence of `t`.
      The empty string occurs in every string. */
  function Includes(s: string, t: string): (b: bool)
    ensures b <==> exists i: nat :: OccursAt(s, t, i)
    decreases |s|
  {
    if |t| <= |s| && s[..|t|] == t then
      assert OccursAt(s, t, 0);
      true
    else if |s| <= |t| then
      assert forall i: nat :: !OccursAt(s, t, i) by {
        forall i: nat ensures !OccursAt(s, t, i) {
          if i + |t| <= |s| {
            assert i == 0;
          }
        }
      }
      false
    else
      ShiftOccurrence(s, t);
      var b := Includes(s[1..], t);
      assert !OccursAt(s, t, 0);
      assert (exists i: nat :: OccursAt(s, t, i)) ==> exists i: nat :: OccursAt(s[1..], t, i) by {
        if i: nat :| OccursAt(s, t, i) {
          assert i >= 1;
          assert OccursAt(s[1..], t, i - 1);
        }
      }
      b
  }

  /** Occurrences in the tail of `s` are the occurrences in `s` after its first position. */
  lemma ShiftOccurrence(s: string, t: string)
    requires |s| > 0
    ensures forall i: nat :: OccursAt(s[1..], t, i) <==> OccursAt(s, t, i + 1)
  {
    forall i: nat ensures OccursAt(s[1..], t, i) <==> OccursAt(s, t, i + 1) {
      if i + 1 + |t| <= |s| {
        assert s[1..][i..i + |t|] == s[i + 1..i + 1 + |t|];
      }
    }
  }

  /** A string ending in `t` includes `t`. */
  lemma IncludesSuffix(p: string, t: string)
    ensures Includes(p + t, t)
  {
    assert (p + t)[|p|..|p| + |t|] == t;
    assert OccursAt(p + t, t, |p|);
  }

  /** Whatever a prefix of `s` includes, `s` includes too. */
  lemma IncludesFromPrefix(p: string, s: string, t: string)
    requires p <= s
    requires Includes(p, t)
    ensures Includes(s, t)
  {
    var i: nat :| OccursAt(p, t, i);
    assert s[i..i + |t|] == p[i..i + |t|];
    assert OccursAt(s, t, i);
  }
}
