/**
 * Client scenarios: what a caller can conclude from the contracts of
 * FalloutSolver.Store alone.
 */
module Scenarios {
  import opened Options
  import opened Solver
  import opened FalloutSolver

  /** Same-length words are accepted; a shorter word and a repeated word are refused. */
  method AddingWords()
  {
    var store := new Store();
    var ok := store.AddCandidate("APPLE");
    assert ok;
    store.ViewAt(0);
    ok := store.AddCandidate("GRAPE");
    assert ok;
    store.ViewAt(0);
    assert store.Views() == [Cand(0, "APPLE", None), Cand(1, "GRAPE", None)];
    ok := store.AddCandidate("HI");
    assert !ok;
    assert store.candidates[0].value == "APPLE";
    ok := store.AddCandidate("APPLE");
    assert !ok;
    assert |store.candidates| == 2;
  }

  /** Of APPLE (no count) and GRAPE (count 1), exactly APPLE is valid. */
  lemma AppleOnlyValid()
    ensures var vs := [Cand(0, "APPLE", None), Cand(1, "GRAPE", Some(1))];
            ValidCount(vs, vs) == 1 && Solver.IsValid(vs[0], vs) && !Solver.IsValid(vs[1], vs)
  {
    var vs := [Cand(0, "APPLE", None), Cand(1, "GRAPE", Some(1))];
    assert "G"[..0] == [] && "GR"[..1] == "G" && "GRA"[..2] == "GR";
    assert "GRAP"[..3] == "GRA" && "GRAPE"[..4] == "GRAP";
    assert MatchCount("GRAP", "APPLE") == 0;
    assert MatchCount("GRAPE", "APPLE") == 1;
    assert Solver.IsValid(vs[0], vs);
    assert vs[..1] == [vs[0]] && vs[..2] == vs && vs[..1][..0] == [];
  }

  /**
   * GRAPE shares one position with APPLE. Once GRAPE's count is recorded as
   * 1, APPLE is the only candidate that may be the secret.
   */
  method RecordingACount()
  {
    var store := new Store();
    var ok := store.AddCandidate("APPLE");
    store.ViewAt(0);
    ok := store.AddCandidate("GRAPE");
    assert store.Views() == [Cand(0, "APPLE", None), Cand(1, "GRAPE", None)];
    var apple := store.candidates[0];
    assert IndexOfId(store.candidates, 1) == Some(1);
    store.UpdateCandidateMatches(1, Some(1));
    ReportsApple(store, apple);
  }

  /** With the evidence above recorded, the store reports APPLE. */
  method ReportsApple(store: Store, apple: Candidate)
    requires |store.candidates| == 2 && store.candidates[0] == apple
    requires store.Views() == [Cand(0, "APPLE", None), Cand(1, "GRAPE", Some(1))]
  {
    ghost var vs := store.Views();
    AppleOnlyValid();
    var only := store.GetOnlyValid();
    assert only != null;
    ghost var k :| 0 <= k < 2 && store.candidates[k] == only && OnlyValidAt(vs, vs, k);
    assert k == 0;
    assert only == apple;
  }

  /** A lone candidate is never reported, even with every position matched. */
  method LoneCandidate()
  {
    var store := new Store();
    var ok := store.AddCandidate("APPLE");
    store.UpdateCandidateMatches(0, Some(5));
    var only := store.GetOnlyValid();
    assert only == null;
  }

  /** Ids are not reused after a reset, and an unknown id changes nothing. */
  method ResetKeepsCounter()
  {
    var store := new Store();
    var ok := store.AddCandidate("APPLE");
    store.Reset();
    ok := store.AddCandidate("HI");
    assert ok && store.Views() == [Cand(1, "HI", None)];
    var before := store.notifications;
    store.UpdateCandidateMatches(0, Some(2));
    assert store.Views() == [Cand(1, "HI", None)] && store.notifications == before;
  }
}
