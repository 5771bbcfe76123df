# gridnav in Dafny

A model of the spatial-navigation selector of gridnav.js: `GridNav.findNext`
picks the element to focus after an arrow-key press. It takes the candidate
nodes, drops repetitions and the current node, and measures each one. It then
keeps the candidates ahead of the source rectangle in the travel direction
and keeps those tied at the smallest gap along the travel axis. Remaining ties
are broken by how much the candidates overlap the source across the travel
axis, and further ties recursively against the source rectangles of earlier
calls on the same axis. The navigator keeps a short history of those
rectangles and clears it when the axis changes.

Modules, one per concern:

- `Wrappers` — `Option`.
- `Seqs`:
  - `Filter`, as `Array.prototype.filter` behaves, with its order-preserving
    characterisation `IsFilterOf`;
  - `Dedup`, the iteration order of a `Set` built from an array;
  - `SortAndFilter`, `SortAndGetLowest` and `SortAndGetHighest`.
- `Directions`:
  - directions, axes, key codes and the `DirectionInput` a call receives
    (a direction name or a key event);
  - rectangles and their named sides;
  - the per-direction edge tuple and the direction test.
- `Overlap` — `clamp` and `calculateOverlap`, with the percentage rounded in
  integer arithmetic.
- `Ranking` — the candidate record, the three filters of the pipeline, and
  `Select`, the whole selection as a function of its inputs and the history
  it ranks with.
- `Navigation`:
  - the class `GridNav` with the fields the source updates in place
    (`axisHistory`, `lastAxis`, `direction`, `axis`, `directionEdges`);
  - its methods, with `FindNext` proved equal to `Select` on the history
    it sees, and the history update proved against `RecordedHistory`.
- `Scenarios` — small layouts worked through the model.

The helpers `filterByDirection`, `filterByClosestParallel` and the rest read
`this.direction` and `this.directionEdges` in the source. Here they are
module-level members that take the direction or the edge tuple as a
parameter. `FindNext` passes exactly the values `SetupDirectionAndAxis` has
just stored.

Coordinates are integers. The overlap percentage `Math.round(n / d * 100)`
becomes `(200 * n + d) / (2 * d)` for `d > 0`: the integer nearest to the
exact share `100 * n / d`, halves rounded up. The source rounds a double
instead, which can differ at exact halves (see "## Left out"). The
main-edge distance of integer rectangles needs no rounding.

### Points of the code the model keeps as written

- **History order.** The recursion of the overlap tie-break takes
  `history[0]` (gridnav.js:153), and `unshift` (gridnav.js:84) makes that
  the most recent source. `FilterOverlapping` recurses on `history[0]` and
  `history[1..]`.
- **Unrecognised key.** With a key code outside 37-40 the direction stays
  undefined, `filterByDirection` returns `undefined`, and `targets.length`
  at gridnav.js:77 throws. `SetupDirectionAndAxis` models the state such a
  key leaves behind: the direction and the edge tuple are unset and the
  axis is horizontal. `FindNext` requires a recognised direction.

## Model

| member | source | states |
|---|---|---|
| Seqs.Filter | gridnav.js:49 | the result has only elements of the input that pass the test, and keeps every element that passes it; it is no longer than the input, a sub-multiset of it, and repetition-free when the input is |
| Seqs.FilterSelects | gridnav.js:49 | the filter is the order-preserving subsequence at exactly the positions whose element passes the test |
| Seqs.Dedup | gridnav.js:69 | the same elements as the input, each once, in order of first occurrence |
| Seqs.Extremum | gridnav.js:47-48 | the key of the first element after sorting: attained by some element and no larger (ascending) or no smaller (descending) than any element's key |
| Seqs.SortAndFilter | gridnav.js:46-50 | empty exactly for empty input; every kept element has the extremal key; every element with the extremal key is kept; a sub-multiset of the input; in input order, the filter of the input by "key equals the extremum" |
| Seqs.SortAndGetLowest | gridnav.js:52 | empty exactly for empty input; keeps exactly the elements with the smallest key, in input order |
| Seqs.SortAndGetHighest | gridnav.js:53 | empty exactly for empty input; keeps exactly the elements with the largest key |
| Directions.GetAxis | gridnav.js:16 | vertical exactly for up and down |
| Directions.GetDirectionEdges | gridnav.js:98-103 | horizontal travel compares left/right sides and measures the top-bottom span by height; vertical travel compares top/bottom sides and measures the left-right span by width; for a well-formed rectangle the size is the span's length |
| Directions.AheadMeansPastLeadingSide | gridnav.js:105-111 | the direction test holds exactly when the candidate's trailing side is at or beyond the source's leading side of the edge tuple, in the sense of travel |
| Directions.TranslateKeyToDirection | gridnav.js:20-27 | a direction exactly for the arrow-key codes |
| Directions.ArrowKeysAreDirectionKeys | gridnav.js:18 | `isArrowKey` holds exactly for the key codes of the four directions |
| Directions.TranslateInvertsKeyCode | gridnav.js:20-27 | translating a code gives a direction exactly when the code is that direction's entry in `KEYS` |
| Directions.ResolveDirection | gridnav.js:91-93 | a direction name resolves to itself; a key event resolves to the direction whose key code it carries, and to none exactly when its code is not an arrow key |
| Overlap.Clamp | gridnav.js:55 | never above `max`; within `[min, max]` when that range is non-empty; the value itself inside it; the nearer end outside it |
| Overlap.RoundPercent | gridnav.js:129-130 | the result is the integer nearest to `100 * n / d`, halves rounded up |
| Overlap.RoundPercentMonotone | gridnav.js:129-130 | the rounded share grows with the covered length |
| Overlap.RoundPercentFacts | gridnav.js:129-130 | 0 for nothing covered, 100 for all of it, within [0, 100] in between, positive exactly from half a percent on |
| Overlap.CalculateOverlap | gridnav.js:124-131 | 0 for a non-positive size; within [0, 100] for an ordered target span; 100 when the spans coincide; 0 when they are disjoint or only touch |
| Overlap.OverlapIsCoveredShare | gridnav.js:124-131 | the score is the rounded percentage of the source's span that the intersection of the spans covers; positive exactly when that intersection is at least 1/200 of the span |
| Overlap.IdenticalSpansScoreFull | gridnav.js:124-131 | two rectangles with the same non-empty span score 100 against each other both ways |
| Ranking.MeasureAll | gridnav.js:73 | one record per node, in order, carrying that node and its measured rectangle |
| Ranking.Candidates | gridnav.js:69-70 | exactly the listed nodes other than the current one, each once |
| Ranking.FilterByDirection | gridnav.js:105-111 | keeps exactly the candidates passing the direction test, as the order-preserving subsequence of the input |
| Ranking.MainEdgeDist | gridnav.js:117-118 | the absolute difference between the source's leading side and the candidate's trailing side |
| Ranking.MainEdgeDistIsGap | gridnav.js:113-118 | for a candidate ahead, that distance is the gap between the two rectangles along the travel direction |
| Ranking.NearestRow | gridnav.js:113-122 | empty exactly for empty input; each survivor is a candidate carrying its own distance; no survivor is farther than any candidate; in input order, the filter of the measured candidates by minimal distance |
| Ranking.NearestRowKeepsEveryNearest | gridnav.js:121 | every candidate at the smallest distance survives |
| Ranking.FilterByClosestParallel | gridnav.js:113-122 | the loop writes every candidate's distance, and the result is `NearestRow` |
| Ranking.CalculateOverlaps | gridnav.js:133-143 | a copy of each candidate, same position, with its self score against the reference and the reference's score against it, each within [0, 100] for ordered spans |
| Ranking.MostOverlapped | gridnav.js:146-149 | survivors are candidates with a positive self score that no candidate exceeds, carrying that score and their current score against the same reference |
| Ranking.MostOverlappedKeepsEveryBest | gridnav.js:146-149 | every candidate with the highest positive self score survives, with both its scores |
| Ranking.Refine | gridnav.js:146-155 | what the closing step ranks: candidates drawn from the best-covered ones, empty exactly when those are; without recursion each carries its current score against the reference itself |
| Ranking.FilterOverlapping | gridnav.js:145-161 | never empty on non-empty input and never longer than it; survivors are input candidates; it falls back to the input exactly when no candidate of `Refine` covers any of its reference; otherwise the survivors are the candidates of `Refine` with the highest positive current score, all of them, and each has the highest self score against the reference |
| Ranking.ClosingSurvivors | gridnav.js:157-160 | the closing filter and sort keep something exactly when some candidate covers its reference, and each survivor covers it with the highest current score |
| Ranking.ClosingKeepsEveryTied | gridnav.js:157-158 | every candidate tied with a survivor on the current score survives too |
| Ranking.NoFallbackWhenBestCoversReference | gridnav.js:145-161 | for any history, when a candidate with the highest self score also covers part of the reference, the step does not fall back: it returns candidates with that highest self score and a positive current score |
| Ranking.RefineCovers | gridnav.js:152-157 | a best-covered candidate that covers part of the reference leaves the closing step something to keep, whether or not the recursion falls back |
| Ranking.ClosingStepWithoutRecursion | gridnav.js:157-160 | without recursion the step falls back when no best-covered candidate covers any of the reference, and otherwise keeps best-covered candidates whose current score against the reference is the highest |
| Ranking.RecursionDepth | gridnav.js:152-155 | the recursion consumes one history entry per level and happens only while several candidates tie, so its depth is at most the history's length |
| Ranking.Rank | gridnav.js:77-81 | the narrowing steps return nothing exactly when nothing is ahead, and only candidates ahead at the smallest distance |
| Ranking.RankPrefersBestCovered | gridnav.js:77-81 | when a nearest candidate has the highest self score among the nearest and covers part of the source, every candidate the ranking keeps has that self score, for any history |
| Ranking.Select | gridnav.js:64-88 | nothing exactly when no listed node other than the current one lies ahead; otherwise a listed node other than the current one, with its own rectangle, ahead of the source, and no farther than any candidate ahead |
| Navigation.AxisOf | gridnav.js:94 | vertical exactly for up and down; an unset direction counts as horizontal |
| Navigation.RankingHistory | gridnav.js:67 | the ranking sees no history after a change of axis and the stored one otherwise |
| Navigation.RecordedHistory | gridnav.js:84-85 | the source first, then the previous entries in order, at most `maxHistory - 1` of them |
| Navigation.SameAxisRemembersSource | gridnav.js:67-85 | on the same axis, the next call ranks with this call's source first and the earlier entries after it, at most four in all |
| Navigation.TurnForgetsHistory | gridnav.js:67 | after a turn onto the other axis the next call ranks with no history |
| Navigation.SelectNext | gridnav.js:69-87 | the pipeline as the method runs it returns `Select` |
| Navigation.RankAhead | gridnav.js:77-81 | the two guarded narrowing steps return `Rank` |
| Navigation.GridNav.constructor | gridnav.js:59-62 | an empty history and no previous axis |
| Navigation.GridNav.SetupDirectionAndAxis | gridnav.js:90-96 | stores the resolved direction, its axis (horizontal when unset) and its edge tuple, and changes nothing else |
| Navigation.GridNav.Reset | gridnav.js:163-166 | empties the history and changes nothing else |
| Navigation.GridNav.RecordSource | gridnav.js:84-85 | the unshift-and-pop loop leaves `RecordedHistory` of the previous history |
| Navigation.GridNav.FindNext | gridnav.js:64-88 | returns `Select` on the history that survives the axis check; afterwards the history is that history with the source recorded, the last axis is this call's, and the direction, axis and edge tuple are this call's; the history bound holds |
| Scenarios.SingleAlignedNeighbour | gridnav.js:64-88 | one aligned candidate to the right is chosen |
| Scenarios.TieBrokenByOverlap | gridnav.js:145-161 | of two candidates tied at the same distance, the one the source covers fully beats the one it covers a quarter of |
| Scenarios.NothingAhead | gridnav.js:105-111 | with every candidate to the left, going right gives nothing |
| Scenarios.RightRightUp | gridnav.js:67-85 | right, right, up: two entries before the turn, only the turn's own source after it |

## Left out

- DOM measurement: `getBoundingClientRect` and `document.activeElement` are parameters of `FindNext`, namely the mapping `measure` from node to rectangle and the rectangle `source`. Nodes are natural numbers compared by identity.
- Floating point: coordinates are integers, so `Math.round` of the main-edge distance is the identity, and the overlap percentage is rounded in integer arithmetic.
- Overlap.RoundPercent: rounds the exact share `100 * n / d`, not the double `n / d * 100`. At exact halves the double can fall just below .5: for 23 of 40 the source computes 57.49999999999999 and rounds to 57 where the model gives 58, and 29 of 200 gives 14 against 15. Scores there, and the tie-breaks that read them, can differ from the source's.
- Overlap.CalculateOverlap: a zero size, where the source divides 0 by 0, gives 0 rather than NaN. A negative size, where the source gets -0, also gives 0. Both fail the `> 0` filters exactly as NaN and -0 do.
- Navigation.GridNav.FindNext: requires a recognised direction. With an unrecognised key the source throws a TypeError at gridnav.js:77, and that exception path is not modelled.
- `lastDirection` and the argument of `reset`: the field is never read, and `findNext` calls `reset` without an argument.
- The in-place `sort` inside `sortAndFilter`: the sorted array is not used after the call, so only the result is modelled. With the stable sort of ES2019 that result is the order-preserving filter by the extremal key.
- Ranking.FilterByClosestParallel: the source writes `mainEdgeDist` onto the shared candidate objects; the model builds copies carrying it. No candidate object is read elsewhere after the write.
- Ranking.Target: the ranking fields hold 0 before a step writes them, where the source leaves them undefined. No step reads one before writing it.
- The object `findNext` returns also carries the ranking fields the pipeline attached. `Select` returns the record with those fields, but states only the node, rectangle, direction and distance facts about it.
- Ranking.Select: the exact winner among several survivors of the overlap step, which is the first in input order, is given by its definition. Its contract states only the geometric facts above; what the overlap step guarantees about the winner is stated on `Rank`'s result by `RankPrefersBestCovered`.
- Ranking.Rank: its contract speaks of the nearest-row step; the overlap step's guarantee is the separate lemma `RankPrefersBestCovered`, and the scores a survivor carries after a recursive narrowing, which come from the innermost reference, are not characterised further.
- The center-distance tie-break of other revisions: it is not part of gridnav.js.
- `maxHistory` is a constant of the model; the source's instance field is never reassigned.
