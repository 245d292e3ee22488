# rtime: remote wall-clock estimate, modelled in Dafny

`rtime.Now()` estimates the current time from the `Date` headers of several
well-known web sites. It waits until at least three of them have answered
(or a two-second deadline fires, in which case it returns the zero
`time.Time`). It then looks at every pair of answers, picks the pair whose
two timestamps are closest (ties go to the pair whose earlier member is
earliest), and takes the earlier member of that pair. A process-wide
running estimate `rtime` makes sure a returned value is never earlier than
one returned before.

This project models the decision part of `Now()`:

- `instants.dfy` (module `Instants`): instants as integer nanoseconds since
  the zero `time.Time`, so the zero time is `Zero == 0`. It also models
  `time.Duration`, a signed 64-bit count, and `Time.Sub`, which saturates
  at the bounds of that range.
- `pairs.dfy` (module `Pairs`): the pair record, the swap that normalises
  two results (`NormalisedPair`) and the two nested loops that build the
  pair list (`BuildPairs`). The loops are specified against
  `AllPairs`, which is derived from the sequence of index pairs the loops
  visit (`IndexPairs`). Lemmas prove that there are `n(n-1)/2` pairs, that
  no index pair repeats, and that every `i < j` is present.
- `selector.dfy` (module `Selector`): the comparator given to `sort.Slice`
  and the selection. `Select` builds the pairs and picks the winner.
  `Chosen` says what the winner is. Lemmas prove that the choice is unique,
  that it does not depend on the order of the results, and that it agrees
  with the head of any sorted permutation. Two concrete lemmas cover the
  examples {T, T+1s, T+10s} and an equal-distance tie.
- `clamp.dfy` (module `Clamp`): class `RunningEstimate` holds `rtime`;
  its method `Clamp` replaces it only with a strictly later candidate.
  `Returns` is the sequence of values handed back by successive clamps,
  and `ClampSuccessive` shows that calling `Clamp` repeatedly produces it.
  Lemmas prove that sequence is non-decreasing and that each value is the
  running maximum.
- `estimator.dfy` (module `Estimator`): the per-wake-up decision
  (`Decide`) and the waiting loop of `Now`. The loop runs over the
  snapshots `(res, timedout)` the call observes at its successive
  wake-ups.

Behaviour of the code that the model keeps:

- The recorded difference of a pair is `tm1.Sub(tm0)`, a `time.Duration`.
  `Sub` saturates at about 292 years, so the comparator minimises the
  saturated difference. While all results lie within that range, the
  winner is a truly closest pair (`Selector.ChosenIsClosestPair`). Beyond
  it, all large differences compare equal and the tie-break on `tm0`
  decides: for results at 0, 400 and 700 years the candidate is 0, even
  though the 400/700 pair is closest (`Selector.SaturatedDifferencesTie`).
  The comment at rtime.go:70-72 asks for the two results with the least
  difference in time; the model follows the code, which compares the
  saturated `Sub`.
- `rtime` starts at the zero time. A candidate at or before the zero time
  leaves it there, so the call returns the zero time, the same value as
  the failure sentinel.
- The inner loop's guard `i != j` is always true, because `j` starts at
  `i + 1`. The model keeps the guard as written.
- `Select` needs only two results, since `list[0]` exists as soon as there
  is one pair. The quorum of three is enforced by the caller (`Decide`), as
  in the code.

## Model

| member | source | states |
|---|---|---|
| `Instants.Sub` | rtime.go:86 | `tm1.Sub(tm0)` is exact while the difference fits a Duration, and is `MaxDuration` above that range and `MinDuration` below it; it is non-negative exactly when `t >= u`, zero exactly when the instants are equal, and never more than the true difference |
| `Pairs.MakePair` | rtime.go:82-86 | the pair holds the two results, earlier first (`tm0 <= tm1`); `diff >= 0`, zero exactly when the results are equal, equal to `tm1 - tm0` when that fits a Duration, and `MaxDuration` when it does not |
| `Pairs.NormalisedPair` | rtime.go:82-86 | the inner loop's swap and `Sub` build exactly `MakePair` of the two results |
| `Pairs.RowTo` | rtime.go:80-88 | the inner loop of row `i` visits `(i, i+1), …, (i, j-1)`, that is `j - i - 1` index pairs |
| `Pairs.Rows` | rtime.go:79-89 | every index pair visited in rows `0 .. i-1` has first index below `i` and satisfies `first < second < n` |
| `Pairs.AllPairs` | rtime.go:78-89 | the built list has one pair per visited index pair, and each pair is normalised (`tm0 <= tm1`, `diff >= 0`) |
| `Pairs.BuildPairs` | rtime.go:78-89 | the nested loops build exactly `AllPairs(res)`: the pair of `res[i]` and `res[j]` for every visited `(i, j)`, in loop order |
| `Pairs.RowsLength` | rtime.go:79-88 | rows `0 .. i-1` over `n` results hold `i(2n-i-1)/2` index pairs |
| `Pairs.AllPairsLength` | rtime.go:79-88 | `n` results give exactly `n(n-1)/2` pairs |
| `Pairs.RowsIncreasing` | rtime.go:79-88 | the loops visit index pairs in strictly increasing lexicographic order |
| `Pairs.IndexPairsDistinct` | rtime.go:79-88 | no index pair is visited twice, and every visited pair has `i < j < n`, so no result is paired with itself |
| `Pairs.RowsComplete` | rtime.go:79-88 | every `(a, b)` with `a < i` and `a < b < n` is visited within rows `0 .. i-1` |
| `Pairs.AllPairsMembers` | rtime.go:79-88 | a pair is in the list if and only if it is built from two positions `i < j` of the results |
| `Pairs.AllPairsFromPositions` | rtime.go:79-88 | every entry of the list is the pair of two positions `i < j` of the results |
| `Pairs.AllPairsHasPositions` | rtime.go:79-88 | the pair of any two positions `i < j` of the results is in the list |
| `Selector.Less` | rtime.go:91-97 | the comparator: the smaller `diff` first, then the earlier `tm0` |
| `Selector.LessOrdersKeys` | rtime.go:91-97 | the comparator is irreflexive, asymmetric and transitive, and two pairs tie exactly when their `diff` and `tm0` are equal |
| `Selector.SelectFirst` | rtime.go:90-99 | the returned position holds a pair that no pair in the list sorts before under the comparator, and every earlier position sorts strictly after it |
| `Selector.SortedHeadMatchesScan` | rtime.go:90-98 | every permutation of the list that is sorted by the comparator, in whatever order an unstable sort leaves ties, starts with a pair of the same `diff` and `tm0` as the scan's pick |
| `Selector.SortedPairsHeadIsChosen` | rtime.go:90-99 | whatever sorted order `sort.Slice` leaves the full pair list in, its head's `tm0` is the chosen candidate |
| `Selector.Select` | rtime.go:78-99 | the candidate is `tm0` of a pair of results that no pair sorts before (`Chosen`); it is one of the results and is at most another result, its partner |
| `Selector.ClosestKeyUnique` | rtime.go:90-98 | two pairs that nothing sorts before have the same `diff` and the same `tm0` |
| `Selector.ChosenIsUnique` | rtime.go:90-99 | a result set has at most one chosen candidate, so the selection is deterministic |
| `Selector.PairOfPermutation` | rtime.go:79-88 | reordering the results (same multiset) keeps the set of pairs, duplicates included |
| `Selector.ChosenIgnoresOrder` | rtime.go:79-98 | the candidate does not depend on the order of the results |
| `Selector.ChosenIsClosestPair` | rtime.go:86-98 | while every two results lie within a Duration, the candidate is the earlier member of a pair at minimal distance, and no pair at that distance starts earlier |
| `Selector.ClosestPairWins` | rtime.go:69-99 | for results {T, T+1s, T+10s} in any order, the candidate is T, and no other value can be chosen |
| `Selector.EarlierPairWinsTie` | rtime.go:91-97 | for T+2s, T+1s and T, the two pairs one second apart tie on `diff`, and the one starting at T wins |
| `Selector.SaturatedDifferencesTie` | rtime.go:86-98 | for results at 0, 400 and 700 years, saturated differences tie and the candidate is 0, although the 400/700 pair is closer |
| `Clamp.Advance` | rtime.go:103-105 | the new running estimate is at least the old one and at least the candidate, and is one of the two; so it is the later of the two |
| `Clamp.RunningEstimate.constructor` | rtime.go:17 | the running estimate starts at the zero time |
| `Clamp.RunningEstimate.Clamp` | rtime.go:101-106 | `rtime` becomes `Advance(old rtime, candidate)`; the return value equals the new `rtime` and is at least the old `rtime` and the candidate |
| `Clamp.ClampSuccessive` | rtime.go:101-106 | successive calls on one running estimate hand back exactly `Returns(old rtime, cands)` and leave `rtime` at the last of them |
| `Clamp.ReturnsNonDecreasing` | rtime.go:103-106 | values returned by successive clamps never go backward, and never fall below the starting estimate |
| `Clamp.ReturnsIsRunningMax` | rtime.go:103-106 | each returned value is at least every candidate offered so far, and is either the starting estimate or one of those candidates |
| `Estimator.Decide` | rtime.go:68-111 | a wake-up selects exactly when at least 3 results are in, whether or not the deadline has fired; it gives up exactly when fewer are in and the deadline has fired; otherwise it waits |
| `Estimator.Now` | rtime.go:66-111 | the loop waits through every earlier wake-up and returns at the first that does not wait; with a quorum it returns the clamped chosen candidate; otherwise it returns the zero time and leaves `rtime` unchanged |

## Left out

- The HTTP `HEAD` probes, the client's two-second timeout and its no-redirect policy (rtime.go:35-43) are network I/O. Each probe is represented only by the timestamp it adds to `res`.
- Parsing the `Date` header as an RFC 1123 date (rtime.go:45) is foreign library code for the HTTP-date format of section 7.1.1.1 of RFC 7231. A successful probe is an integer instant.
- The goroutines, the mutex `mu`, the condition variable, the two-second sleep and the `rmu` lock (rtime.go:42-66, 101-102, 111) exist for concurrency. A call is modelled as the sequence of snapshots `(res, timedout)` seen at its wake-ups. Concurrent calls of `Now` are modelled as calls in sequence on one `RunningEstimate`.
- Estimator.Now: requires that the last snapshot has timed out, because the timer goroutine always fires. It does not require that `res` only grows between snapshots, which makes it more general than the code.
- The in-place `sort.Slice` (rtime.go:90-98) is modelled as a scan for the first minimal pair (`SelectFirst`). `SortedHeadMatchesScan` then shows that any sorted permutation has the same head key. The model does not reorder the list.
- `.Local()` (rtime.go:99) only changes the display location and is the identity on instants.
- The hard-coded site list (rtime.go:10-14) is configuration data.
- The monotonic-clock reading inside a Go `time.Time` is absent from parsed dates and is not modelled.
