/**
 * `column LIKE '%term%'` in SQLite: true when `term` occurs in the column
 * value, with ASCII letters compared without regard to case (SQLite's default
 * for LIKE) and every other character compared exactly.
 */
module SqlLike {

  /** ASCII upper-case letters to lower case; every other character unchanged. */
  function FoldAscii(c: char): (r: char)
    ensures 'A' <= c <= 'Z' ==> r as int == c as int + 32
    ensures !('A' <= c <= 'Z') ==> r == c
  {
    if 'A' <= c <= 'Z' then (c as int + 32) as char else c
  }

  /** `s` begins with `p`, ignoring ASCII case. */
  predicate StartsWithFolded(s: string, p: string) {
    |p| <= |s| && forall i :: 0 <= i < |p| ==> FoldAscii(s[i]) == FoldAscii(p[i])
  }

  /**
   * `value LIKE '%term%'`, scanning each start position in turn: the empty
   * term matches every value, and a term longer than the value matches none.
   */
  function ContainsFolded(value: string, term: string): (r: bool)
    ensures term == [] ==> r
    ensures r ==> |term| <= |value|
    decreases |value|
  {
    StartsWithFolded(value, term) || (|value| > 0 && ContainsFolded(value[1..], term))
  }

  /** An occurrence of `term` at position `i` of `value`. */
  ghost predicate OccursAt(value: string, term: string, i: int) {
    0 <= i && i + |term| <= |value| &&
    forall k :: 0 <= k < |term| ==> FoldAscii(value[i + k]) == FoldAscii(term[k])
  }

  /** The scan finds a match exactly when some position holds the term. */
  lemma {:induction false} ContainsFoldedIffOccurs(value: string, term: string)
    ensures ContainsFolded(value, term) <==> exists i :: OccursAt(value, term, i)
    decreases |value|
  {
    if StartsWithFolded(value, term) {
      assert OccursAt(value, term, 0);
    } else if |value| > 0 {
      ContainsFoldedIffOccurs(value[1..], term);
      if exists i :: OccursAt(value[1..], term, i) {
        var i :| OccursAt(value[1..], term, i);
        assert OccursAt(value, term, i + 1);
      }
      if exists i :: OccursAt(value, term, i) {
        var i :| OccursAt(value, term, i);
        assert i != 0;
        assert OccursAt(value[1..], term, i - 1);
      }
    }
  }

  /** A value with no character equal to the term's first, ignoring case, does not match. */
  lemma NoMatchWithoutFirstChar(value: string, term: string)
    requires term != []
    requires forall i :: 0 <= i < |value| ==> FoldAscii(value[i]) != FoldAscii(term[0])
    ensures !ContainsFolded(value, term)
  {
    forall i ensures !OccursAt(value, term, i) {
      if 0 <= i < |value| {
        assert FoldAscii(value[i]) != FoldAscii(term[0]);
      }
    }
    ContainsFoldedIffOccurs(value, term);
  }

  /** A value that contains the term exactly also matches it under LIKE. */
  lemma ExactOccurrenceMatches(value: string, term: string, i: nat)
    requires i + |term| <= |value| && value[i..i + |term|] == term
    ensures ContainsFolded(value, term)
  {
    assert OccursAt(value, term, i) by {
      forall k | 0 <= k < |term| ensures value[i + k] == term[k] {
        assert value[i..i + |term|][k] == value[i + k];
      }
    }
    ContainsFoldedIffOccurs(value, term);
  }
}
