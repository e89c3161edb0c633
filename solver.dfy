/**
 * The deduction rules of the password solver, on plain values.
 *
 * A candidate is seen here as a value `Cand(id, value, matches)`; the
 * classes of module FalloutSolver are proved against these functions.
 */
module Solver {
  import opened Options

  /** What one candidate holds: its id, the guessed word and the recorded match count, if any. */
  datatype Cand = Cand(id: int, value: string, matches: Option<int>)

  // ---------------------------------------------------------------------------
  // Match count
  // ---------------------------------------------------------------------------

  /**
   * The number of positions i < |s0| at which s0 and s1 hold the same
   * character. A position past the end of s1 never matches (reading past the
   * end of a string yields no character), so the count never exceeds either
   * length.
   */
  function MatchCount(s0: string, s1: string): (n: nat)
    ensures n <= |s0| && n <= |s1|
    decreases |s0|
  {
    if |s0| == 0 then 0
    else
      var i := |s0| - 1;
      MatchCount(s0[..i], s1) + (if i < |s1| && s0[i] == s1[i] then 1 else 0)
  }

  /** The positions at which two strings agree. */
  function MatchingPositions(s0: string, s1: string): set<nat>
  {
    set i: nat | i < |s0| && i < |s1| && s0[i] == s1[i]
  }

  /** MatchCount is the size of the set of agreeing positions. */
  lemma {:induction false} MatchCountIsCardinality(s0: string, s1: string)
    ensures MatchCount(s0, s1) == |MatchingPositions(s0, s1)|
    decreases |s0|
  {
    if |s0| > 0 {
      var i := |s0| - 1;
      var p := s0[..i];
      MatchCountIsCardinality(p, s1);
      var before := MatchingPositions(p, s1);
      if i < |s1| && s0[i] == s1[i] {
        assert MatchingPositions(s0, s1) == before + {i};
      } else {
        assert MatchingPositions(s0, s1) == before;
      }
    }
  }

  /** Counting matches does not depend on the order of the two strings. */
  lemma MatchCountSymmetric(a: string, b: string)
    ensures MatchCount(a, b) == MatchCount(b, a)
  {
    MatchCountIsCardinality(a, b);
    MatchCountIsCardinality(b, a);
    assert MatchingPositions(a, b) == MatchingPositions(b, a);
  }

  /** A word matches itself at every position. */
  lemma {:induction false} MatchCountSelf(a: string)
    ensures MatchCount(a, a) == |a|
    decreases |a|
  {
    if |a| > 0 {
      var i := |a| - 1;
      MatchCountPrefix(a[..i], a);
      MatchCountSelf(a[..i]);
    }
  }

  /** Extending the second string beyond the first one's length does not change the count. */
  lemma {:induction false} MatchCountPrefix(p: string, s: string)
    requires p <= s
    ensures MatchCount(p, s) == MatchCount(p, p)
    decreases |p|
  {
    if |p| > 0 {
      var i := |p| - 1;
      assert p[..i] <= s && p[..i] <= p;
      MatchCountPrefix(p[..i], s);
      MatchCountPrefix(p[..i], p);
    }
  }

  /** Two words of one length match everywhere exactly when they are the same word. */
  lemma {:induction false} FullMatchIffEqual(a: string, b: string)
    requires |a| == |b|
    ensures MatchCount(a, b) == |a| <==> a == b
    decreases |a|
  {
    if |a| > 0 {
      var i := |a| - 1;
      FullMatchIffEqual(a[..i], b[..i]);
      MatchCountPrefixes(a[..i], b);
      if a[..i] == b[..i] && a[i] == b[i] {
        assert a == a[..i] + [a[i]] && b == b[..i] + [b[i]];
      }
    } else {
      assert a == b;
    }
  }

  /** Only the first |p| characters of the second string matter to MatchCount(p, _). */
  lemma {:induction false} MatchCountPrefixes(p: string, s: string)
    requires |p| <= |s|
    ensures MatchCount(p, s) == MatchCount(p, s[..|p|])
    decreases |p|
  {
    if |p| > 0 {
      var i := |p| - 1;
      MatchCountPrefixes(p[..i], s);
      MatchCountPrefixes(p[..i], s[..|p|]);
      assert s[..|p|][..i] == s[..i];
    }
  }

  // ---------------------------------------------------------------------------
  // Validity
  // ---------------------------------------------------------------------------

  /**
   * `other` does not contradict `self` being the secret: it is `self` (same
   * id), it has no recorded count, or its recorded count is exactly how many
   * positions it shares with `self`.
   */
  predicate Consistent(other: Cand, self: Cand)
  {
    other.id == self.id || other.matches.None? ||
    MatchCount(other.value, self.value) == other.matches.value
  }

  /** Its own recorded count, if any, says that every position matched. */
  predicate OwnCountAllows(self: Cand)
  {
    self.matches.None? || self.matches.value == |self.value|
  }

  /** `self` may still be the secret, given the evidence recorded on `cs`. */
  predicate IsValid(self: Cand, cs: seq<Cand>)
  {
    OwnCountAllows(self) && forall j :: 0 <= j < |cs| ==> Consistent(cs[j], self)
  }

  /** A recorded count other than the word's own length rules the candidate out, whatever the others say. */
  lemma OwnCountDisqualifies(self: Cand, cs: seq<Cand>)
    requires self.matches.Some? && self.matches.value != |self.value|
    ensures !IsValid(self, cs)
  {
  }

  /** A candidate with no recorded count, or with the same id as `self`, never rules `self` out. */
  lemma {:induction false} UnconstrainingAppend(self: Cand, cs: seq<Cand>, extra: Cand)
    requires extra.matches.None? || extra.id == self.id
    ensures IsValid(self, cs + [extra]) <==> IsValid(self, cs)
  {
    if IsValid(self, cs) {
      forall j | 0 <= j < |cs + [extra]| ensures Consistent((cs + [extra])[j], self) {
        if j < |cs| { assert (cs + [extra])[j] == cs[j]; }
      }
    }
    if IsValid(self, cs + [extra]) {
      forall j | 0 <= j < |cs| ensures Consistent(cs[j], self) {
        assert (cs + [extra])[j] == cs[j];
      }
    }
  }

  /** No two candidates share an id. */
  predicate DistinctIds(cs: seq<Cand>)
  {
    forall i, j :: 0 <= i < j < |cs| ==> cs[i].id != cs[j].id
  }

  /**
   * When ids are distinct, skipping by id is skipping by position: candidate k
   * is valid exactly when every OTHER position is consistent with it.
   */
  lemma IdSkipIsPositionSkip(cs: seq<Cand>, k: nat)
    requires DistinctIds(cs) && k < |cs|
    ensures IsValid(cs[k], cs) <==>
            OwnCountAllows(cs[k]) &&
            forall j :: 0 <= j < |cs| && j != k ==>
              cs[j].matches.None? || MatchCount(cs[j].value, cs[k].value) == cs[j].matches.value
  {
  }

  /** Every recorded count is the true number of positions the word shares with `secret`. */
  predicate Truthful(cs: seq<Cand>, secret: string)
  {
    forall j :: 0 <= j < |cs| && cs[j].matches.Some? ==>
      cs[j].matches.value == MatchCount(cs[j].value, secret)
  }

  /** Soundness: while the evidence is truthful, the secret itself is never ruled out. */
  lemma SecretStaysValid(cs: seq<Cand>, secret: string, k: nat)
    requires Truthful(cs, secret)
    requires k < |cs| && cs[k].value == secret
    ensures IsValid(cs[k], cs)
  {
    MatchCountSelf(secret);
    assert OwnCountAllows(cs[k]);
  }

  /**
   * A recorded count outside [0, |value|] can never be met, so it rules out
   * every candidate of a list with distinct ids, whatever the words are.
   */
  lemma OutOfRangeRulesOutAll(cs: seq<Cand>, k: nat)
    requires DistinctIds(cs)
    requires k < |cs| && cs[k].matches.Some?
    requires cs[k].matches.value < 0 || cs[k].matches.value > |cs[k].value|
    ensures forall j :: 0 <= j < |cs| ==> !IsValid(cs[j], cs)
  {
  }

  // ---------------------------------------------------------------------------
  // Counting the valid candidates
  // ---------------------------------------------------------------------------

  /** How many of `prefix` are valid against the whole list `all`. */
  function ValidCount(prefix: seq<Cand>, all: seq<Cand>): (n: nat)
    ensures n <= |prefix|
    decreases |prefix|
  {
    if |prefix| == 0 then 0
    else
      var i := |prefix| - 1;
      ValidCount(prefix[..i], all) + (if IsValid(prefix[i], all) then 1 else 0)
  }

  /** One more candidate of `s` counted. */
  lemma ValidCountStep(s: seq<Cand>, all: seq<Cand>, i: nat)
    requires i < |s|
    ensures ValidCount(s[..i + 1], all) == ValidCount(s[..i], all) + (if IsValid(s[i], all) then 1 else 0)
  {
    assert s[..i + 1][..i] == s[..i];
  }

  /** No valid candidate at all: the count is zero, and conversely. */
  lemma {:induction false} ValidCountZero(prefix: seq<Cand>, all: seq<Cand>)
    ensures ValidCount(prefix, all) == 0 <==>
            forall j :: 0 <= j < |prefix| ==> !IsValid(prefix[j], all)
    decreases |prefix|
  {
    if |prefix| > 0 {
      var i := |prefix| - 1;
      ValidCountZero(prefix[..i], all);
      assert forall j :: 0 <= j < i ==> prefix[..i][j] == prefix[j];
    }
  }

  /** Candidate k is valid against `all`, and no other candidate of `prefix` is. */
  predicate OnlyValidAt(prefix: seq<Cand>, all: seq<Cand>, k: nat)
  {
    k < |prefix| && IsValid(prefix[k], all) &&
    forall j :: 0 <= j < |prefix| && IsValid(prefix[j], all) ==> j == k
  }

  /** A count of one names exactly one valid candidate, and conversely. */
  lemma ValidCountOne(prefix: seq<Cand>, all: seq<Cand>)
    ensures ValidCount(prefix, all) == 1 <==> exists k :: OnlyValidAt(prefix, all, k)
  {
    if ValidCount(prefix, all) == 1 {
      var k := CountOneHasOnlyValid(prefix, all);
    }
    if exists k :: OnlyValidAt(prefix, all, k) {
      var k :| OnlyValidAt(prefix, all, k);
      OnlyValidHasCountOne(prefix, all, k);
    }
  }

  lemma {:induction false} CountOneHasOnlyValid(prefix: seq<Cand>, all: seq<Cand>) returns (k: nat)
    requires ValidCount(prefix, all) == 1
    ensures OnlyValidAt(prefix, all, k)
    decreases |prefix|
  {
    var i := |prefix| - 1;
    var p := prefix[..i];
    assert forall j :: 0 <= j < i ==> p[j] == prefix[j];
    if IsValid(prefix[i], all) {
      ValidCountZero(p, all);
      k := i;
    } else {
      k := CountOneHasOnlyValid(p, all);
    }
  }

  lemma {:induction false} OnlyValidHasCountOne(prefix: seq<Cand>, all: seq<Cand>, k: nat)
    requires OnlyValidAt(prefix, all, k)
    ensures ValidCount(prefix, all) == 1
    decreases |prefix|
  {
    var i := |prefix| - 1;
    var p := prefix[..i];
    assert forall j :: 0 <= j < i ==> p[j] == prefix[j];
    if k == i {
      ValidCountZero(p, all);
    } else {
      assert !IsValid(prefix[i], all);
      assert OnlyValidAt(p, all, k);
      OnlyValidHasCountOne(p, all, k);
    }
  }

  /** The count over a prefix never exceeds the count over a longer prefix. */
  lemma {:induction false} ValidCountMonotone(s: seq<Cand>, all: seq<Cand>, i: nat, j: nat)
    requires i <= j <= |s|
    ensures ValidCount(s[..i], all) <= ValidCount(s[..j], all)
    decreases j - i
  {
    if i < j {
      ValidCountMonotone(s, all, i, j - 1);
      assert s[..j][..j - 1] == s[..j - 1];
    }
  }

  /**
   * With truthful evidence and the secret among the candidates, a single
   * valid candidate is the secret.
   */
  lemma OnlyValidIsSecret(cs: seq<Cand>, secret: string, k: nat, j: nat)
    requires Truthful(cs, secret)
    requires k < |cs| && cs[k].value == secret
    requires ValidCount(cs, cs) == 1
    requires j < |cs| && IsValid(cs[j], cs)
    ensures cs[j].value == secret
  {
    SecretStaysValid(cs, secret, k);
    ValidCountOne(cs, cs);
  }

  /** So a count outside [0, |value|] leaves no valid candidate to report. */
  lemma OutOfRangeLeavesNoneValid(cs: seq<Cand>, k: nat)
    requires DistinctIds(cs)
    requires k < |cs| && cs[k].matches.Some?
    requires cs[k].matches.value < 0 || cs[k].matches.value > |cs[k].value|
    ensures ValidCount(cs, cs) == 0
  {
    OutOfRangeRulesOutAll(cs, k);
    ValidCountZero(cs, cs);
  }
}
