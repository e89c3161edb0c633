/**
 * The solver's two classes. A `Candidate` is one guessed word with an id that
 * never changes and a recorded match count that the store updates in place; a
 * `Store` owns the candidates, hands out ids and keeps a list of observers.
 *
 * Each method is proved against the functions of module Solver, through the
 * value view `Cand` of a candidate object.
 */
module FalloutSolver {
  import opened Options
  import opened Solver
  import Decimal

  class Candidate {
    const id: int
    const value: string
    var matches: Option<int>

    /** A new candidate has no recorded match count. */
    constructor (id: int, value: string)
      ensures this.id == id && this.value == value && matches == None
    {
      this.id := id;
      this.value := value;
      matches := None;
    }

    /** The candidate as a value. */
    function View(): Cand
      reads this
    {
      Cand(id, value, matches)
    }

    /** The list key: the decimal text of the id, which reads back as the id. */
    function Key(): (k: string)
      ensures Decimal.IsDecimal(k) && Decimal.ParseInt(k) == id
    {
      Decimal.IntToStringRoundTrip(id);
      Decimal.IntToString(id)
    }

    /**
     * Whether this candidate may still be the secret. Its own recorded count
     * is checked first, and the list is then read only if that count is unset
     * or full; entries with this candidate's id or no recorded count are
     * skipped.
     */
    method IsValid(candidates: seq<Candidate>) returns (b: bool)
      ensures b == Solver.IsValid(View(), ViewsOf(candidates))
      ensures matches.Some? && matches.value != |value| ==> !b
    {
      if matches.Some? && matches.value != |value| {
        return false;
      }
      ghost var vs := ViewsOf(candidates);
      for i := 0 to |candidates|
        invariant forall j :: 0 <= j < i ==> Consistent(vs[j], View())
      {
        var cand := candidates[i];
        if cand.id == id {
          continue;
        }
        if cand.matches.None? {
          continue;
        }
        var n := GetMatchCount(cand.value, value);
        if n != cand.matches.value {
          assert !Consistent(vs[i], View());
          return false;
        }
      }
      return true;
    }

    /** The number of positions at which s0 and s1 agree, walking the positions of s0. */
    static method GetMatchCount(s0: string, s1: string) returns (counter: nat)
      ensures counter == MatchCount(s0, s1)
    {
      counter := 0;
      for i := 0 to |s0|
        invariant counter == MatchCount(s0[..i], s1)
      {
        assert s0[..i + 1][..i] == s0[..i];
        if i < |s1| && s0[i] == s1[i] {
          counter := counter + 1;
        }
      }
      assert s0[..|s0|] == s0;
    }
  }

  /** The candidates of a list, as values. */
  function ViewsOf(cs: seq<Candidate>): (vs: seq<Cand>)
    reads cs
    ensures |vs| == |cs|
  {
    seq(|cs|, i reads cs requires 0 <= i < |cs| => cs[i].View())
  }

  lemma ViewsOfAppend(cs: seq<Candidate>, c: Candidate)
    ensures ViewsOf(cs + [c]) == ViewsOf(cs) + [c.View()]
  {
  }

  /** The position of the first candidate with the given id, if there is one. */
  function IndexOfId(cs: seq<Candidate>, id: int): (r: Option<nat>)
    ensures r.Some? ==> r.value < |cs| && cs[r.value].id == id &&
                        forall j :: 0 <= j < r.value ==> cs[j].id != id
    ensures r.None? ==> forall j :: 0 <= j < |cs| ==> cs[j].id != id
  {
    if cs == [] then None
    else if cs[0].id == id then Some(0)
    else match IndexOfId(cs[1..], id)
      case None => None
      case Some(k) => Some(k + 1)
  }

  /** An observer, known only by its handle; the model never invokes it. */
  datatype Callback = Callback(handle: nat)

  /** The list with every occurrence of cb taken out, the others kept in order. */
  function Without(cbs: seq<Callback>, cb: Callback): (r: seq<Callback>)
    ensures forall x :: x in r <==> x in cbs && x != cb
    ensures |r| <= |cbs|
  {
    if cbs == [] then []
    else (if cbs[0] == cb then [] else [cbs[0]]) + Without(cbs[1..], cb)
  }

  /** Taking out a handle works piecewise on a concatenation. */
  lemma {:induction false} WithoutConcat(a: seq<Callback>, b: seq<Callback>, cb: Callback)
    ensures Without(a + b, cb) == Without(a, cb) + Without(b, cb)
  {
    if a == [] {
      assert a + b == b;
    } else {
      assert (a + b)[0] == a[0] && (a + b)[1..] == a[1..] + b;
      WithoutConcat(a[1..], b, cb);
    }
  }

  /** Taking out a handle that is not registered changes nothing. */
  lemma {:induction false} WithoutAbsent(cbs: seq<Callback>, cb: Callback)
    requires cb !in cbs
    ensures Without(cbs, cb) == cbs
  {
    if cbs != [] {
      assert cbs[1..] + [] == cbs[1..];
      WithoutAbsent(cbs[1..], cb);
      assert [cbs[0]] + cbs[1..] == cbs;
    }
  }

  /** Registering a new handle and then removing it restores the list. */
  lemma AddThenRemove(cbs: seq<Callback>, cb: Callback)
    requires cb !in cbs
    ensures Without(cbs + [cb], cb) == cbs
  {
    WithoutConcat(cbs, [cb], cb);
    WithoutAbsent(cbs, cb);
    assert Without([cb], cb) == [];
  }

  /**
   * What a store keeps true of its candidates: ids handed out lie in
   * [0, next), every candidate's id was handed out and is unique, values are
   * distinct, and all values have the first candidate's length.
   */
  ghost predicate StoreInvariant(cs: seq<Candidate>, issued: set<int>, next: int)
  {
    next >= 0 &&
    (forall x :: x in issued ==> 0 <= x < next) &&
    (forall i :: 0 <= i < |cs| ==> cs[i].id in issued) &&
    (forall i, j :: 0 <= i < j < |cs| ==> cs[i].id != cs[j].id) &&
    (forall i, j :: 0 <= i < j < |cs| ==> cs[i].value != cs[j].value) &&
    (forall i :: 0 <= i < |cs| ==> |cs[i].value| == |cs[0].value|)
  }

  /** Appending a candidate with a fresh id and an admissible value keeps the invariant. */
  lemma AppendKeepsInvariant(cs: seq<Candidate>, issued: set<int>, next: int, c: Candidate)
    requires StoreInvariant(cs, issued, next)
    requires c.id == next
    requires forall i :: 0 <= i < |cs| ==> cs[i].value != c.value
    requires |cs| == 0 || |cs[0].value| == |c.value|
    ensures next !in issued
    ensures StoreInvariant(cs + [c], issued + {next}, next + 1)
  {
    var cs' := cs + [c];
    assert forall i :: 0 <= i < |cs| ==> cs'[i] == cs[i];
  }

  class Store {
    var candidates: seq<Candidate>
    var callbacks: seq<Callback>
    var nextCandidateId: int
    /** One entry per emitted update: the observers notified, in order. */
    ghost var notifications: seq<seq<Callback>>
    /** Every id the store has ever handed out. */
    ghost var issuedIds: set<int>

    /** The store's invariant; see StoreInvariant. */
    ghost predicate Valid()
      reads this
    {
      StoreInvariant(candidates, issuedIds, nextCandidateId)
    }

    /** The candidates, as values. */
    ghost function Views(): seq<Cand>
      reads this, candidates
    {
      ViewsOf(candidates)
    }

    /** Position k of the view is candidate k. */
    lemma ViewAt(k: nat)
      requires k < |candidates|
      ensures |Views()| == |candidates| && Views()[k] == candidates[k].View()
    {
    }

    /** In a valid store the candidate values have distinct ids, so validity skips exactly the candidate itself. */
    lemma ViewsHaveDistinctIds()
      requires Valid()
      ensures DistinctIds(Views())
    {
    }

    constructor ()
      ensures Valid()
      ensures candidates == [] && callbacks == [] && nextCandidateId == 0
      ensures notifications == [] && issuedIds == {}
    {
      candidates := [];
      callbacks := [];
      nextCandidateId := 0;
      notifications := [];
      issuedIds := {};
    }

    method AddCallback(cb: Callback)
      modifies this`callbacks
      ensures callbacks == old(callbacks) + [cb]
    {
      callbacks := callbacks + [cb];
    }

    method RemoveCallback(cb: Callback)
      modifies this`callbacks
      ensures callbacks == Without(old(callbacks), cb)
    {
      callbacks := Without(callbacks, cb);
    }

    /** Notifies every registered observer, in registration order. */
    method EmitUpdate()
      modifies this`notifications
      ensures notifications == old(notifications) + [callbacks]
    {
      notifications := notifications + [callbacks];
    }

    method GetCandidates() returns (r: seq<Candidate>)
      ensures r == candidates
    {
      r := candidates;
    }

    /**
     * The one valid candidate, or null: null when there are at most one
     * candidate, and null when none or more than one is valid.
     */
    method GetOnlyValid() returns (r: Candidate?)
      ensures r != null <==> |Views()| >= 2 && ValidCount(Views(), Views()) == 1
      ensures r != null ==> exists k :: 0 <= k < |candidates| && candidates[k] == r &&
                                        OnlyValidAt(Views(), Views(), k)
    {
      if |candidates| <= 1 {
        return null;
      }
      ghost var vs := Views();
      var firstValid: Candidate? := null;
      ghost var firstIndex: nat := 0;
      for i := 0 to |candidates|
        invariant firstValid == null <==> ValidCount(vs[..i], vs) == 0
        invariant firstValid != null ==> ValidCount(vs[..i], vs) == 1
        invariant firstValid != null ==>
          firstIndex < i && candidates[firstIndex] == firstValid && Solver.IsValid(vs[firstIndex], vs)
      {
        var cand := candidates[i];
        var valid := cand.IsValid(candidates);
        assert valid == Solver.IsValid(vs[i], vs);
        ValidCountStep(vs, vs, i);
        if valid {
          if firstValid == null {
            firstValid, firstIndex := cand, i;
          } else {
            ValidCountMonotone(vs, vs, i + 1, |vs|);
            assert vs[..|vs|] == vs;
            return null;
          }
        }
      }
      assert vs[..|vs|] == vs;
      if firstValid != null {
        ValidCountOne(vs, vs);
        assert OnlyValidAt(vs, vs, firstIndex);
      }
      return firstValid;
    }

    /** No candidate holds `value`, and `value` has the first candidate's length, if there is one. */
    ghost predicate Admits(value: string)
      reads this
    {
      (forall i :: 0 <= i < |candidates| ==> candidates[i].value != value) &&
      (|candidates| == 0 || |candidates[0].value| == |value|)
    }

    /**
     * Adds a new candidate with the next id and no recorded count, unless
     * its value is already present or its length differs from the first
     * candidate's.
     */
    method AddCandidate(value: string) returns (ok: bool)
      requires Valid()
      modifies this
      ensures Valid()
      ensures ok == old(Admits(value))
      ensures ok ==> |candidates| == |old(candidates)| + 1 &&
                     candidates[..|old(candidates)|] == old(candidates) &&
                     fresh(candidates[|old(candidates)|]) &&
                     Views() == old(Views()) + [Cand(old(nextCandidateId), value, None)] &&
                     old(nextCandidateId) !in old(issuedIds) &&
                     nextCandidateId == old(nextCandidateId) + 1 &&
                     issuedIds == old(issuedIds) + {old(nextCandidateId)} &&
                     notifications == old(notifications) + [callbacks]
      ensures !ok ==> candidates == old(candidates) && nextCandidateId == old(nextCandidateId) &&
                      issuedIds == old(issuedIds) && notifications == old(notifications)
      ensures callbacks == old(callbacks)
    {
      if exists i :: 0 <= i < |candidates| && candidates[i].value == value {
        return false;
      }
      if |candidates| > 0 && |candidates[0].value| != |value| {
        return false;
      }
      ghost var before := candidates;
      assert forall i :: 0 <= i < |before| ==> before[i].value != value;
      var c := new Candidate(nextCandidateId, value);
      issuedIds := issuedIds + {nextCandidateId};
      candidates := candidates + [c];
      nextCandidateId := nextCandidateId + 1;
      ViewsOfAppend(before, c);
      AppendKeepsInvariant(before, old(issuedIds), old(nextCandidateId), c);
      EmitUpdate();
      return true;
    }

    /** Drops every candidate; the id counter is kept, so ids are never reused. */
    method Reset()
      requires Valid()
      modifies this
      ensures Valid()
      ensures candidates == [] && callbacks == old(callbacks)
      ensures nextCandidateId == old(nextCandidateId) && issuedIds == old(issuedIds)
      ensures notifications == old(notifications) + [callbacks]
    {
      candidates := [];
      EmitUpdate();
    }

    /**
     * Records a match count (unset clears it) on the candidate with the given
     * id, without any range check; does nothing, and notifies no one, when no
     * candidate has that id.
     */
    method UpdateCandidateMatches(id: int, matches: Option<int>)
      requires Valid()
      modifies this`notifications, set c | c in candidates
      ensures Valid()
      ensures candidates == old(candidates)
      ensures match old(IndexOfId(candidates, id))
        case None => Views() == old(Views()) && notifications == old(notifications)
        case Some(k) => Views() == old(Views())[k := old(Views())[k].(matches := matches)] &&
                        notifications == old(notifications) + [callbacks]
    {
      var found := IndexOfId(candidates, id);
      if found.Some? {
        var candidate := candidates[found.value];
        candidate.matches := matches;
        EmitUpdate();
      }
    }
  }
}
