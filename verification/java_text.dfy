/**
 * The two `java.lang.String` tests the search filters use: `startsWith` and
 * `contains`, both literal and case-sensitive, over strings as sequences of
 * characters.
 */
module JavaText {

  /** `s.startsWith(prefix)`: the first `|prefix|` characters of `s` are `prefix`. */
  predicate StartsWith(s: string, prefix: string)
  {
    |prefix| <= |s| && s[..|prefix|] == prefix
  }

  /** `startsWith` agrees with Dafny's own prefix relation on sequences. */
  lemma StartsWithIsPrefix(s: string, prefix: string)
    ensures StartsWith(s, prefix) <==> prefix <= s
  {
  }

  /** Every string starts with the empty string and with itself. */
  lemma StartsWithEmptyAndSelf(s: string)
    ensures StartsWith(s, "") && StartsWith(s, s)
  {
  }

  /**
   * `s.contains(sub)`: a left-to-right scan that asks, at each position,
   * whether the rest of `s` starts with `sub` (what `indexOf(sub) >= 0` does).
   */
  predicate Contains(s: string, sub: string)
    decreases |s|
  {
    StartsWith(s, sub) || (|s| > 0 && Contains(s[1..], sub))
  }

  /** `sub` occurs in `s` at position `i`. */
  predicate OccursAt(s: string, sub: string, i: nat)
  {
    i <= |s| && StartsWith(s[i..], sub)
  }

  /** An occurrence at any position makes the scan succeed. */
  lemma {:induction false} OccurrenceIsContained(s: string, sub: string, i: nat)
    requires OccursAt(s, sub, i)
    ensures Contains(s, sub)
    decreases i
  {
    if i == 0 {
      assert s[0..] == s;
    } else {
      assert s[1..][i - 1..] == s[i..];
      OccurrenceIsContained(s[1..], sub, i - 1);
    }
  }

  /** A successful scan has found an occurrence. */
  lemma {:induction false} ContainedHasOccurrence(s: string, sub: string) returns (i: nat)
    requires Contains(s, sub)
    ensures OccursAt(s, sub, i)
    decreases |s|
  {
    if StartsWith(s, sub) {
      assert s[0..] == s;
      i := 0;
    } else {
      var j := ContainedHasOccurrence(s[1..], sub);
      assert s[1..][j..] == s[j + 1..];
      i := j + 1;
    }
  }

  /** `contains` holds exactly when `sub` occurs somewhere in `s`. */
  lemma ContainsIffOccurs(s: string, sub: string)
    ensures Contains(s, sub) <==> exists i: nat :: OccursAt(s, sub, i)
  {
    if Contains(s, sub) {
      var i := ContainedHasOccurrence(s, sub);
    }
    if i: nat :| OccursAt(s, sub, i) {
      OccurrenceIsContained(s, sub, i);
    }
  }
}
