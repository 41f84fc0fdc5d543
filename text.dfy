/** Case folding and substring search on strings, as the note queries use them
    (`toLowerCase` and `includes` in src/NotesManager.ts). */
module Text {

  /** ASCII case folding of one character: 'A'..'Z' become 'a'..'z', all others are kept. */
  function LowerChar(c: char): char
  {
    if 'A' <= c <= 'Z' then (c as int + 32) as char else c
  }

  /** `s.toLowerCase()`, restricted to ASCII folding: the result has no capital
      letter left, and every character that is not a capital is kept. */
  function Lower(s: string): (r: string)
    ensures |r| == |s|
    ensures forall i :: 0 <= i < |r| ==> !('A' <= r[i] <= 'Z')
    ensures forall i :: 0 <= i < |s| && !('A' <= s[i] <= 'Z') ==> r[i] == s[i]
  {
    seq(|s|, i requires 0 <= i < |s| => LowerChar(s[i]))
  }

  /** Folding twice is folding once, so a folded query folds to itself. */
  lemma LowerIdempotent(s: string)
    ensures Lower(Lower(s)) == Lower(s)
  {
    assert forall i :: 0 <= i < |s| ==> Lower(Lower(s))[i] == Lower(s)[i];
  }

  predicate StartsWith(s: string, q: string)
  {
    |q| <= |s| && s[..|q|] == q
  }

  /** `s.includes(q)`: q occurs in s at some position. */
  predicate Includes(s: string, q: string)
    decreases |s|
  {
    StartsWith(s, q) || (|s| > 0 && Includes(s[1..], q))
  }

  /** The independent reading of "q is a substring of s": an offset at which q sits. */
  ghost predicate OccursAt(s: string, q: string, k: int)
  {
    0 <= k && k + |q| <= |s| && s[k..k + |q|] == q
  }

  ghost predicate IsSubstring(q: string, s: string)
  {
    exists k :: OccursAt(s, q, k)
  }

  /** Includes finds exactly the occurrences of q in s, in both directions. */
  lemma IncludesIff(s: string, q: string)
    ensures Includes(s, q) <==> IsSubstring(q, s)
  {
    if Includes(s, q) {
      IncludesHasOccurrence(s, q);
    }
    if IsSubstring(q, s) {
      var k :| OccursAt(s, q, k);
      OccurrenceIsIncluded(s, q, k);
    }
  }

  /** An occurrence of q in s[1..] at k is an occurrence in s at k + 1. */
  lemma ShiftedOccurrence(s: string, q: string, k: nat)
    requires |s| > 0
    ensures OccursAt(s[1..], q, k) <==> OccursAt(s, q, k + 1)
  {
    if 0 <= k && k + |q| <= |s[1..]| {
      assert s[1..][k..k + |q|] == s[k + 1..k + 1 + |q|];
    }
  }

  lemma {:induction false} IncludesHasOccurrence(s: string, q: string)
    requires Includes(s, q)
    ensures IsSubstring(q, s)
    decreases |s|
  {
    if StartsWith(s, q) {
      assert OccursAt(s, q, 0);
    } else {
      IncludesHasOccurrence(s[1..], q);
      var k :| OccursAt(s[1..], q, k);
      ShiftedOccurrence(s, q, k);
    }
  }

  lemma {:induction false} OccurrenceIsIncluded(s: string, q: string, k: int)
    requires OccursAt(s, q, k)
    ensures Includes(s, q)
    decreases k
  {
    if k == 0 {
      assert s[..|q|] == s[0..|q|];
    } else {
      ShiftedOccurrence(s, q, k - 1);
      OccurrenceIsIncluded(s[1..], q, k - 1);
    }
  }

  /** The empty query is included in every string. */
  lemma IncludesEmpty(s: string)
    ensures Includes(s, "")
  {
    assert s[..0] == "";
  }

  /** Every string includes itself. */
  lemma IncludesSelf(s: string)
    ensures Includes(s, s)
  {
    assert s[..|s|] == s;
  }
}
