# Fallout password solver — a Dafny model of its core

The solver helps with the terminal-hacking word puzzle: the player types several
guesses of one length, and for each guess records how many positions it shares
with the unknown password. A guess stays *valid* while no recorded count
contradicts it, and the solver reports the one valid guess when exactly one
remains.

The model covers the two classes of `tsx/index.tsx`:

- `Candidate` (one guess: id, word, optional recorded match count), with its
  validity check and the position-wise match count;
- `Store` (the candidate list, the id counter and the observer list), with its
  mutators `addCandidate`, `reset`, `updateCandidateMatches`, the observer
  operations and the query `getOnlyValid`.

Files:

- `options.dfy` — module `Options`: the optional type standing for "number or null".
- `solver.dfy` — module `Solver`: the deduction rules on plain values
  (`Cand`), the recursive `MatchCount`, `IsValid`, `ValidCount`, and the lemmas
  about them.
- `decimal.dfy` — module `Decimal`: the decimal text of an integer, which is what
  `key()` returns, with its parse-back round trip.
- `fallout_solver.dfy` — module `FalloutSolver`: the classes `Candidate` and
  `Store`, written imperatively as in the source. Each loop-based method is
  proved against a `Solver` function; `Store.Valid()` is the store's invariant
  (distinct values, one shared length, distinct ids below the counter).
- `scenarios.dfy` — module `Scenarios`: client methods that derive concrete
  outcomes from the contracts alone.

Observers are opaque handles (`Callback`); `emitUpdate` appends the list of
handles it would call to the ghost log `notifications`, so every contract says
exactly when a notification happens and to whom. The ghost set `issuedIds`
records every id ever handed out, which states that ids are never reused.

Behaviours of the code worth noting:

- `getOnlyValid` returns null for a store with one candidate, whatever its
  recorded count (tsx/index.tsx:39-41), even when that count is the word's
  full length (`Scenarios.LoneCandidate`).
- `getMatchCount` reads `s1[i]` for every `i < s0.length`. Past the end of `s1`
  this yields no character, so that position never matches. The model counts
  positions below both lengths, and the count is symmetric for all strings,
  equal-length or not.
- `isValid` skips other entries by comparing ids, not object identity
  (tsx/index.tsx:106).

## Model

| member | source | states |
|---|---|---|
| `Solver.MatchCount` | tsx/index.tsx:122-131 | the number of agreeing positions never exceeds the length of either string |
| `Solver.MatchCountIsCardinality` | tsx/index.tsx:122-131 | the count equals the size of the set of indices i below both lengths with s0[i] == s1[i] |
| `Solver.MatchCountSymmetric` | tsx/index.tsx:122-131 | swapping the two strings does not change the count |
| `Solver.MatchCountSelf` | tsx/index.tsx:122-131 | a word matches itself at all of its positions |
| `Solver.FullMatchIffEqual` | tsx/index.tsx:101-103 | for words of one length, "count equals the length" holds exactly when the words are equal, which is why a candidate's own count must be its full length |
| `Solver.OwnCountDisqualifies` | tsx/index.tsx:101-103 | a recorded own count other than the word's length makes the candidate invalid against any list |
| `Solver.UnconstrainingAppend` | tsx/index.tsx:105-112 | an entry with no recorded count, or with the candidate's own id, never changes the candidate's validity |
| `Solver.IdSkipIsPositionSkip` | tsx/index.tsx:105-116 | with distinct ids, candidate k is valid exactly when its own count allows it and every other position's recorded count equals its match count against k |
| `Solver.SecretStaysValid` | tsx/index.tsx:100-120 | if every recorded count is truthful for some secret, the candidate holding the secret is valid |
| `Solver.OutOfRangeRulesOutAll` | tsx/index.tsx:100-120 | a recorded count below 0 or above the word's length makes every candidate of a list with distinct ids invalid |
| `Solver.OutOfRangeLeavesNoneValid` | tsx/index.tsx:38-55 | such a count leaves zero valid candidates, so nothing is reported |
| `Solver.ValidCountZero` | tsx/index.tsx:43-54 | the valid count is zero exactly when no candidate is valid |
| `Solver.ValidCountOne` | tsx/index.tsx:43-54 | the valid count is one exactly when some candidate is valid and every valid candidate is that one |
| `Solver.ValidCountMonotone` | tsx/index.tsx:44-52 | counting over a longer prefix never gives fewer valid candidates, so a second valid one settles the answer |
| `Solver.OnlyValidIsSecret` | tsx/index.tsx:38-55 | with truthful counts and the secret among the candidates, the single valid candidate holds the secret |
| `Decimal.IntToStringRoundTrip` | tsx/index.tsx:96-98 | the decimal text of an integer is canonical (digits without leading zeros, a '-' only before a non-zero value) and parses back to that integer |
| `Decimal.DecimalRoundTrip` | tsx/index.tsx:96-98 | canonical decimal text is restored by printing the integer it parses to, so each integer has exactly one such text |
| `Decimal.IntToStringInjective` | tsx/index.tsx:96-98 | different ids give different keys |
| `FalloutSolver.Candidate.constructor` | tsx/index.tsx:90-94 | a new candidate has the given id and word and no recorded count |
| `FalloutSolver.Candidate.Key` | tsx/index.tsx:96-98 | the key is canonical decimal text that reads back as the id, which by `Decimal.DecimalRoundTrip` fixes it uniquely |
| `FalloutSolver.Candidate.IsValid` | tsx/index.tsx:100-120 | the loop with early returns answers exactly `Solver.IsValid` on the candidates' values, and answers false when the own count is set and is not the full length |
| `FalloutSolver.Candidate.GetMatchCount` | tsx/index.tsx:122-131 | the counting loop returns exactly `Solver.MatchCount(s0, s1)` |
| `FalloutSolver.IndexOfId` | tsx/index.tsx:77 | the first position holding the id, or none exactly when no candidate has that id |
| `FalloutSolver.Without` | tsx/index.tsx:24-26 | the filtered list holds exactly the handles of the input other than the removed one, and is no longer than the input |
| `FalloutSolver.WithoutConcat` | tsx/index.tsx:24-26 | filtering keeps the order: it works piecewise on a concatenation |
| `FalloutSolver.AddThenRemove` | tsx/index.tsx:20-26 | registering a new handle and then removing it gives back the original list |
| `FalloutSolver.AppendKeepsInvariant` | tsx/index.tsx:57-68 | appending a candidate with the next id and an admissible word keeps distinct values, one length, distinct ids below the counter, and the id was never issued before |
| `FalloutSolver.Store.constructor` | tsx/index.tsx:14-18 | a new store is empty, has no observers, counter 0, and satisfies the invariant |
| `FalloutSolver.Store.ViewsHaveDistinctIds` | tsx/index.tsx:66 | in a valid store no two candidates share an id |
| `FalloutSolver.Store.AddCallback` | tsx/index.tsx:20-22 | the handle is appended to the observer list |
| `FalloutSolver.Store.RemoveCallback` | tsx/index.tsx:24-26 | the observer list becomes `Without(old list, handle)` |
| `FalloutSolver.Store.EmitUpdate` | tsx/index.tsx:28-32 | exactly one notification is logged, to the current observers in registration order |
| `FalloutSolver.Store.GetCandidates` | tsx/index.tsx:34-36 | returns the current candidates in insertion order |
| `FalloutSolver.Store.GetOnlyValid` | tsx/index.tsx:38-55 | returns a candidate exactly when there are at least two and exactly one is valid, and then it is that one valid candidate; null for at most one candidate and for zero or several valid ones |
| `FalloutSolver.Store.AddCandidate` | tsx/index.tsx:57-69 | succeeds exactly when no candidate has the word and the store is empty or the word has the first candidate's length; on success appends one fresh candidate with the old counter as id and no count, increments the counter and notifies once; on failure changes nothing and does not notify; keeps the invariant |
| `FalloutSolver.Store.Reset` | tsx/index.tsx:71-74 | empties the list, keeps the counter and the issued ids, notifies once |
| `FalloutSolver.Store.UpdateCandidateMatches` | tsx/index.tsx:76-82 | when some candidate has the id, sets that one's count (no range check), leaves every other candidate unchanged and notifies once; otherwise changes nothing and does not notify |

## Left out

- The React components `App`, `InputBar` and `CandidateListItem`, the trimming
  and upper-casing of input in `didSubmit`, the page bootstrap and the style
  loader: presentation and browser effects. `AddCandidate` takes the already
  normalised word.
- `EmitUpdate` does not call the observers: they are foreign closures that may
  re-enter the store. It only logs which handles would be called, in order.
  Re-entrant updates from an observer are not modelled.
- `GetCandidates` returns the list as a value. The source returns its live
  array, so a caller could change the store through it; that aliasing is not
  modelled.
- `Candidate` ids and words are constant fields in the model. The source
  declares them as ordinary fields, but the modelled code never assigns them
  after construction.
- Match counts are `Option<int>`. JavaScript numbers may also be fractional or
  NaN; those values are not modelled. `UpdateCandidateMatches` accepts the
  unset value too, as the nullable field type allows.
- Ids are unbounded integers. The loss of precision of JavaScript numbers above
  2^53, and the exponent notation `toString` uses from 10^21 on, are not
  modelled.
- Strings are sequences of characters. JavaScript indexes UTF-16 code units;
  characters outside the basic plane are not distinguished here.
- `webpack.config.js` and `typings/react/react-dom.d.ts` are build
  configuration and type declarations, and carry no logic.
