# Growth projection engine of the Fire Emblem: Three Houses stat calculator

The calculator projects a character's stats from the level they join at to a
chosen final level. Along the way the character passes through the class
changes the user has entered. The engine lives in the `Main` component and has
three cooperating parts:

- **Timeline builder** (`formatClassChanges`, module `Timeline`). It copies the
  user's class-change list and drops the events before the first one that is at
  or above the base level. It then cuts the list at the first event above the
  final level. Finally it brackets the list with the starting class at the base
  level and a placeholder at the final level.
- **Stat evaluator** (`getAverageStat`, module `StatEvaluator`, with its
  properties in `StatProperties`). It walks the timeline interval by interval.
  At the start of each interval it raises the running value to the class base.
  It then adds growth: the expected growth in fixed mode, or one Bernoulli trial
  per level in random mode. After the walk it adds the boost of the final class
  once. Movement (`mv`) is the final class's base.
- **Percentile estimator** (`getMonteCarloAverageStat`, module
  `PercentileEstimator`, with the sort in `Sorting`). It draws `n` random-mode
  samples, sorts them and reads the sample at index `Math.round(n / 100 *
  percentile)`. The stat grid (`renderStatDisplays`) uses the fixed evaluator
  when the percentile is exactly 50, and the estimator otherwise.

Modelling choices:

- The class table is a parameter of type `map<ClassId, ClassDef>`. `WellFormed`
  states what the engine relies on. Every class answers every stat. The
  starting class is in the table. Every user event, kept or not, carries a
  class (not the placeholder) that is in the table. The character's growths and
  joining stats cover every stat but movement.
- Values are kept in exact hundredths of a stat point. Growths are integer
  percentages and spans are integer levels, so the fixed-mode arithmetic is
  exact. The closing `Math.round(val * 100) / 100` is then the identity.
- `Math.random()` becomes an oracle `draws: nat -> real`. In random mode the
  k-th call yields `draws(k)`. In the estimator, sample `i` uses its own stream
  `draws(i)`. A trial succeeds when `100 * draw < growth`, which is
  `Math.random() < 0.01 * growth` on exact numbers.
- The component's props and its final level are passed as one `Props` value.
  The engine reads them and updates none of them. The arrays that
  `formatClassChanges` and `getMonteCarloAverageStat` build with `splice`,
  `push` and `sort` are local sequences that the methods reassign. The caller's
  list is copied with `slice()` in the source. Here it is a value, so the
  caller's list cannot change.

Behaviour of the code the model keeps as written:

- **Negative spans.** Fixed mode adds `growth * span` even when the span is
  negative. Random mode runs no trial on such a span (`NoChangesKept`). A span
  is negative when the final level is below the base level. It is also negative
  on unsorted input: in `UnsortedKeepsLowEvent` the kept events at levels 5 and
  1 give an interval from level 5 to level 1, a span of -4.
- **Unclamped percentile index.** The index is not clamped. For example, two
  samples at the 75th percentile give index 2, past the end, and the source
  returns `undefined`. `Percentile` returns `None` there
  (`TwoSamplesAtSeventyFifth`, `RankIndexInRange`).
- **Unsorted input.** Nothing sorts the class changes. Only the first kept event
  is known to reach the base level (`UnsortedKeepsLowEvent`). The range
  guarantees of `SortedTimeline` need sorted input.

## Model

| member | source | states |
|---|---|---|
| Timeline.FirstAtLeast | src/Main.js:44-50 | the splice length of the first loop is the least index whose level is at least the base level, or the list length when there is none |
| Timeline.FirstAbove | src/Main.js:54-59 | the cut point of the second loop is the least index whose level exceeds the final level, or the list length when there is none |
| Timeline.RemoveBeforeBase | src/Main.js:43-51 | the first loop with its `break` leaves exactly the suffix starting at `FirstAtLeast` |
| Timeline.RemoveAfterFinal | src/Main.js:53-59 | the second loop with its `splice(i)` and `break` leaves exactly the prefix ending before `FirstAbove` |
| Timeline.FormatClassChanges | src/Main.js:36-74 | returns the kept events bracketed by the starting class at the base level and the placeholder at the final level; at least two entries, whatever the input |
| Timeline.KeptIsSlice | src/Main.js:44-59 | the kept events are one contiguous slice of the input; every event before it is below the base level and its first event reaches the base level; every event in it is at most the final level and the event after it exceeds the final level |
| Timeline.TimelineShape | src/Main.js:61-71 | the timeline has two more entries than were kept; its first entry is the starting class and its last is the placeholder; the entries between are the kept events in input order, each at most the final level, and the first of them reaches the base level |
| Timeline.KeptFromInput | src/Main.js:38-59 | every kept event is an event of the input list |
| Timeline.SortedKeptIsInRange | src/Main.js:44-59 | on level-sorted input, the prefix drop and the cut keep exactly the events in the range from base level to final level (`InRange`, a filter), in order |
| Timeline.SortedTimeline | src/Main.js:44-71 | on level-sorted input every kept event lies between the base and final levels; when the base level is not above the final level, the whole timeline is level-sorted |
| Timeline.UnsortedKeepsLowEvent | src/Main.js:45-58 | on unsorted input, an event below the base level survives when it comes after one at or above it |
| StatEvaluator.TimelineCovered | src/Main.js:36-74 | every timeline entry but the placeholder names a class of the table |
| StatEvaluator.LastRealEvent | src/Main.js:99 | the entry at index `len-2` is the last kept user change, or the starting class when none was kept |
| StatEvaluator.Floor | src/Main.js:109 | `Math.max` never lowers the value, its result reaches the class base, and it is one of the two |
| StatEvaluator.FinalClass | src/Main.js:133 | the class at index `len-2` answers every stat lookup |
| StatEvaluator.Hit | src/Main.js:127 | the definition of a successful trial: `Math.random() < 0.01 * growth`, written as `100 * draw < growth` on exact numbers |
| StatEvaluator.Trials | src/Main.js:126 | the definition of how many times the trial loop runs: the span when it is positive, otherwise none |
| StatEvaluator.FixedFold | src/Main.js:106-124 | the definition of the fixed-mode walk: per interval, floor to `100 * base`, then add `growth * span` hundredths; its properties are `FoldsMonotone`, `ZeroSpansOnlyFloor` and `CertainWalksAgree` |
| StatEvaluator.RandomFold | src/Main.js:106-130 | the definition of the random-mode walk: per interval, floor to `100 * base`, then add 100 per successful trial on the next `Trials(span)` draws; its properties are `RandomBetween` and `SampleBounds` |
| StatEvaluator.FixedStat | src/Main.js:92-137 | the definition of `getAverageStat(stat)` in hundredths: movement, or `FixedFold` from the joining stat plus the final boost; `AverageStat` is proved to return it |
| StatEvaluator.SampleStat | src/Main.js:92-137 | the definition of `getAverageStat(stat, false)` in hundredths on a given draw stream; `AverageStat` is proved to return it |
| StatEvaluator.Successes | src/Main.js:125-128 | each trial adds 0 or 1, so the successes never exceed the number of trials, and a span of zero or less gives none |
| StatEvaluator.FixedFoldStep | src/Main.js:109-123 | one fixed-mode loop step advances the fold by one interval |
| StatEvaluator.RandomFoldStep | src/Main.js:109-128 | one random-mode loop step advances the fold by one interval and moves the draw cursor past its trials |
| StatEvaluator.RunTrials | src/Main.js:126-128 | the trial loop gains 100 hundredths per successful draw and consumes one draw per level of a positive span |
| StatEvaluator.WalkIntervals | src/Main.js:106-130 | the interval loop computes the fixed-mode fold or the random-mode fold of the timeline's intervals from the starting value |
| StatEvaluator.AverageStat | src/Main.js:92-137 | in hundredths: in fixed mode `FixedStat` (movement, or the fold from the joining stat plus the final boost), in random mode `SampleStat` on the given draws |
| StatProperties.FoldsMonotone | src/Main.js:106-130 | a higher starting value never ends lower, in fixed mode, in random mode and in the all-failures run |
| StatProperties.RandomBetween | src/Main.js:106-130 | a random walk lies between the all-failures floor chain and that chain plus one point per trial |
| StatProperties.SampleBounds | src/Main.js:103-133 | every random sample is at least the all-failures run and at most that run plus 100 hundredths per trial over positive spans; both bounds include the same floors and boost |
| StatProperties.SpansTelescope | src/Main.js:106-119 | the level differences of the intervals from entry `k` on add up to the last entry's level minus entry `k`'s level |
| StatProperties.TimelineSpan | src/Main.js:36-119 | whatever the class changes, the spans of the timeline's intervals add up to the final level minus the base level |
| StatProperties.NonNegativeSpansTrials | src/Main.js:119-128 | with no negative span, the trial loops run once per level of every span |
| StatProperties.SortedTrialCount | src/Main.js:36-128 | on level-sorted changes with the base level at most the final level, random mode runs `finalLevel - baseLevel` trials in all |
| StatProperties.SortedSampleBounds | src/Main.js:103-133 | on such input a random sample gains at most 100 hundredths per level over the all-failures run |
| StatProperties.CertainTrials | src/Main.js:126-128 | with draws in `[0, 1)`, a growth of at least 100% succeeds on every trial and one of at most 0% succeeds on none |
| StatProperties.CertainWalksAgree | src/Main.js:119-129 | when every growth is 0% or 100% and no span is negative, the random walk equals the fixed-mode walk |
| StatProperties.CertainGrowthModesAgree | src/Main.js:92-137 | under those growths a random sample equals the fixed-mode value |
| StatProperties.ZeroSpansOnlyFloor | src/Main.js:109-129 | intervals of zero length contribute only their class floors, in both modes |
| StatProperties.FlatTimelineZeroSpans | src/Main.js:117-119 | a level-sorted timeline that ends at its starting level has only zero-length intervals |
| StatProperties.FlatRangeZeroSpans | src/Main.js:36-119 | with sorted changes and the final level equal to the base level, every interval has length zero |
| StatProperties.ZeroSpanNoGrowth | src/Main.js:103-133 | with sorted changes and the final level equal to the base level, both modes give the joining stat raised through the class floors plus the boost |
| StatProperties.InvertedRangeKeepsNothing | src/Main.js:44-59 | a final level below the base level keeps no user change |
| StatProperties.NoChangesKept | src/Main.js:103-133 | with nothing kept, fixed mode gives the floored joining stat plus `growth * (final - base)` plus the boost, even for a negative span; random mode gives the floored stat plus the boost when the final level is at most the base level |
| StatProperties.TwentyPercentOverTwentyLevels | src/Main.js:103-136 | growth 20%, class base 0, boost 0, levels 1 to 21, no changes: 4.00 |
| StatProperties.MovementIsFinalClassBase | src/Main.js:98-100 | movement is the `mv` base of the last kept class, or of the starting class when none is kept, in both modes |
| StatProperties.MovementIgnoresStatsAndGrowths | src/Main.js:92-100 | movement depends only on the starting class, the changes and the two levels, not on joining stats or growths |
| Sorting.Insert | src/Main.js:84-86 | inserting into an ascending list gives an ascending list with one more copy of the element |
| Sorting.Sort | src/Main.js:84-86 | the sorted list is ascending and a permutation of the input |
| Sorting.SortedPermutationsEqual | src/Main.js:84-86 | two ascending permutations of the same samples are equal, so any correct sort gives the same list |
| PercentileEstimator.RankIndex | src/Main.js:88 | the rank index taken as the exact nearest integer to `n * percentile / 100`, with halves rounded up (the source rounds a double; see "Left out") |
| PercentileEstimator.RankIndexInRange | src/Main.js:88 | the index is inside the list exactly when `n * (100 - percentile) > 50` |
| PercentileEstimator.Percentile | src/Main.js:84-88 | a value is found exactly when the rank index is inside the list, and a found value is one of the samples |
| PercentileEstimator.Samples | src/Main.js:78-82 | exactly `n` samples, sample `i` being the random-mode value on draw stream `i` |
| PercentileEstimator.MonteCarloAverageStat | src/Main.js:76-89 | collects the `n` random-mode samples in order, sorts them and returns the one at the rank index, or `None` past the end |
| PercentileEstimator.StatDisplayValue | src/Main.js:174-177 | at percentile 50 the fixed-mode value, with no sampling; otherwise the Monte Carlo estimate |
| PercentileEstimator.PercentileIsRank | src/Main.js:84-88 | a found percentile is the element of that rank in every ascending arrangement of the samples |
| PercentileEstimator.PercentileOfConstant | src/Main.js:84-88 | a percentile of equal samples is that value |
| PercentileEstimator.EstimateWithinSampleBounds | src/Main.js:76-133 | every estimate of a grown stat lies within the random-sample bounds |
| PercentileEstimator.MovementEstimate | src/Main.js:76-100 | a movement estimate equals the fixed-mode movement |
| PercentileEstimator.TwoSamplesAtSeventyFifth | src/Main.js:88 | two samples at the 75th percentile give index 2, and nothing is found |

## Left out

- React rendering and component state (`render`, `StatDisplay`, the percentile slider, the `setFinalLevel` / `setPercentile` / `setPercentileIterations` setters, the reset handlers): user-interface plumbing with no computation. The percentile and iteration count are parameters.
- `src/App.js` and `src/WindowWrapper.js` are not part of this model: they hold state wiring and layout only.
- `Math.random` is replaced by the `draws` oracle. Statistical claims about the estimator, such as its expected value, are not properties of the code.
- IEEE-754 floating point: the binary error of `0.01 * (...)` and of the two-decimal rounding is not modelled. Values are exact hundredths.
- PercentileEstimator.RankIndex: rounds the exact quotient `n * percentile / 100`. The source computes `n / 100 * percentile` in doubles, and `n / 100` is inexact. On a rank that is exactly half-way, the double can fall just below the half, and the source's index is then one below the model's. For example, n = 58 at the 25th percentile: the double is 14.499999999999998, so the source reads `dataList[14]`, while `RankIndex(58, 25)` is 15. `MonteCarloAverageStat` and `StatDisplayValue` inherit this difference.
- Loading of `classes.json` and `characters.json`: the class table is a parameter, and `WellFormed` states the completeness the engine assumes. In the source, a class missing from the table makes `classes[id]['bases']` throw a `TypeError`, and a missing stat reads `undefined`. Neither failure is modelled.
- JavaScript string and number coercion: the final level arrives as an input string in the source. Levels are integers here, and the iteration count is a natural number.
- The 25 to 75 range of the percentile slider is a user-interface policy. The estimator is modelled for every percentile.
- Stat keys outside the ten the grid shows cannot occur: `Stat` is a closed datatype.
- `Array.prototype.sort` with the numeric comparator is modelled by an insertion sort on sequences. `SortedPermutationsEqual` shows the algorithm does not affect the result.
- In-place array mutation (`splice`, `push`, `sort`) is modelled as reassigning local sequences. No aliasing exists because each array is a fresh local copy in the source.
