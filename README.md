# eST-miner utilities of pm4py, modelled in Dafny

This project models the utilities that pm4py's eST-miner (a Petri-net discovery
algorithm that searches for places fitting an event log) is built on.

- **Activity orderings** (`order_calculation.dfy`, module `OrderCalculation`).
  An `Order` is a mutable table. It maps each activity to the set of
  activities larger than it.
  - `OrderingFromSortedActivities` fills the table from a list by list
    position.
  - A list sorted by a metric, or by the activity names, is turned into an
    `Order`. The metrics are absolute activity frequency, absolute trace
    frequency and average first-occurrence index.
  - Three search-space builders pair an input ordering with an output
    ordering.
- **Place token replay** (`place_fitness.dfy`, module `PlaceFitness`).
  `PlaceFitnessState` replays a candidate place over the whole log with one
  token counter. For every event it consumes for an output activity, checks
  for a negative count, then produces for an input activity. It reports a set
  drawn from FITTING, OVERFED and UNDERFED.
- **Log preprocessing** (`log_transformation.dfy`, module `LogTransformation`).
  `AddUniqueStartAndEndActivity` adds a start event in front of every trace
  and an end event behind it. It changes the trace objects in place.
- **Shared definitions.**
  - `event_log.dfy` (module `EventLog`): how a log, its activity labels and the
    counts over them are described.
  - `sorting.dfy` (module `Sorting`): Python's stable `sorted` and Python's
    ordering of strings.

Data and helper definitions that the lemmas in the table below are about:

- `PlaceFitness.Place`, `PlaceFitness.Fitness` and `PlaceFitness.FitnessState`
  (pm4py/algo/discovery/est/util/place_fitness.py:7-21) are the candidate
  place with its input and output activity sets, the three fitness
  properties, and the set of properties a replay reports. Their meaning is
  carried by `PlaceFitness.PlaceFitnessState` and the replay lemmas.
- `OrderCalculation.SearchSpaceOrdering`
  (pm4py/algo/discovery/est/util/order_calculation.py:25-28) pairs the input
  ordering with the output ordering; the three `SearchSpaceOrderingBasedOn…`
  builders state what each pair holds.
- `Sorting.Insert` and `Sorting.SortBy` are Python's stable `sorted`
  (pm4py/algo/discovery/est/util/order_calculation.py:150-151), written as an
  insertion sort. `Sorting.SortByPermutes`, `Sorting.SortBySorts`,
  `Sorting.SortByIsStable` and `Sorting.SortByKeepsDistinct` state its
  properties.
- `Sorting.LexLe` and `Sorting.LexLess` are Python's `<=` and `<` on strings,
  by code point (pm4py/algo/discovery/est/util/order_calculation.py:156).
  `Sorting.LexLeIsTotalOrder` and `OrderCalculation.LexicographicOrdering`
  state their properties.

How the model reads the source:

- **Ties.** An order built from a sorted list is a strict total order on its
  activities. Activities with equal metric values are not left incomparable:
  their list position decides, and both sort directions keep them in the
  metric dictionary's key order.
- **Where activities come from.** Every metric and the lexicographic ordering
  collect the log's activities through `all_activities(log)`, which is called
  without the activity key, so the activities are always the `concept:name`
  values. The metrics read `concept:name` to collect the activities and
  `activity_key` to match events; the lexicographic ordering reads only
  `concept:name` and ignores `activity_key`. The model keeps this: each metric
  takes the set of rated activities separately from the traces it counts in.
  `ActivitiesComeFromConceptName` shows the effect with a second key.
  `MetricsOfOccurringActivities` states the ranges in the usual single-key
  case.
- **Replay.** The token counter is initialised once for the whole log and is
  never reset between traces. There is no noise threshold.
  - The monotonicity that a pruning search needs holds in these two
    directions: adding output activities keeps an underfed place underfed, and
    adding input activities keeps an overfed place overfed.
  - The other two directions fail; `OtherDirectionsDoNotPrune` gives the
    counterexamples.
  - Under this code the place {a, b} → {c} on the trace a, b, c keeps one
    token and is OVERFED (`OverfedExamples`).
- **Preprocessing.** Preprocessing is not idempotent. If a trace object occurs
  twice in the log, it is framed twice.

## Model

| member | source | states |
|---|---|---|
| OrderCalculation.Order.constructor | pm4py/algo/discovery/est/util/order_calculation.py:13-14 | the table has exactly the given activities as keys, each with an empty set |
| OrderCalculation.Order.AddRelation | pm4py/algo/discovery/est/util/order_calculation.py:16-18 | with both arguments present and `smaller` known, adds `larger` to the set of `smaller` and changes nothing else. A missing argument leaves the table unchanged. An unknown `smaller` (the KeyError) is reported and leaves the table unchanged |
| OrderCalculation.Order.IsSmallerThan | pm4py/algo/discovery/est/util/order_calculation.py:20-22 | false when an argument is missing or `smaller` is unknown; otherwise true exactly when `larger` was recorded above `smaller` |
| OrderCalculation.OrderingFromSortedActivities | pm4py/algo/discovery/est/util/order_calculation.py:159-167 | the new order has the listed activities as keys, and `IsSmallerThan(a, b)` holds exactly when a ≠ b and a is listed before b (hence never for a = b) |
| OrderCalculation.AddRow | pm4py/algo/discovery/est/util/order_calculation.py:162-166 | the inner loop records every different activity listed at or after position i as larger than the one at position i, and nothing else |
| OrderCalculation.InducedOrderIsStrictTotal | pm4py/algo/discovery/est/util/order_calculation.py:159-167 | for a list without repetitions the order is irreflexive and transitive, and exactly one direction holds between two different activities |
| OrderCalculation.InducedOrderRanks | pm4py/algo/discovery/est/util/order_calculation.py:159-167 | an order built from a list sorted by a metric only records pairs that the metric ranks in the same direction |
| OrderCalculation.MetricLeIsTotalPreorder | pm4py/algo/discovery/est/util/order_calculation.py:150-151 | comparing by metric value, ascending or descending, is a total preorder |
| OrderCalculation.OrdersByStrictValues | pm4py/algo/discovery/est/util/order_calculation.py:148-151 | if metric(a) < metric(b), then in the ascending order a is smaller than b and not the reverse, and in the descending order b is smaller than a and not the reverse |
| OrderCalculation.AllActivities | pm4py/algo/discovery/est/util/order_calculation.py:170-171 | returns every activity of the log exactly once, in an unspecified order |
| OrderCalculation.SortedActivities | pm4py/algo/discovery/est/util/order_calculation.py:148-151 | returns every metric key exactly once; values are non-decreasing for ASC and non-increasing for DESC; equal values stay in the dictionary's key order |
| OrderCalculation.SortedActivitiesSeparateDifferentValues | pm4py/algo/discovery/est/util/order_calculation.py:148-151 | a strictly smaller value comes first in the ascending list and last in the descending list |
| OrderCalculation.SortedActivitiesKeepTiesInKeyOrder | pm4py/algo/discovery/est/util/order_calculation.py:148-151 | two equally rated activities are in key order in both the ascending and the descending list, so the two lists are not mirror images |
| OrderCalculation.TiesFollowKeys | pm4py/algo/discovery/est/util/order_calculation.py:150-151 | for either direction, equally rated activities precede each other in the sorted list exactly as in the key order |
| OrderCalculation.OrderingFromMetric | pm4py/algo/discovery/est/util/order_calculation.py:94 | the order built from a sorted metric is a strict total order on the metric's activities that agrees with the metric's direction |
| OrderCalculation.AbsoluteActivityFrequency | pm4py/algo/discovery/est/util/order_calculation.py:87-93 | every activity of the log gets the number of events labelled with it |
| OrderCalculation.AddActivityOccurrences | pm4py/algo/discovery/est/util/order_calculation.py:89-93 | the loop over the log adds one for every event labelled with the activity |
| OrderCalculation.AbsoluteTraceFrequency | pm4py/algo/discovery/est/util/order_calculation.py:111-121 | every activity of the log gets the number of traces that contain it |
| OrderCalculation.AddTraceOccurrences | pm4py/algo/discovery/est/util/order_calculation.py:115-120 | the loop over the log adds one for every trace whose collected activities contain the activity |
| OrderCalculation.AverageFirstOccurrenceIndex | pm4py/algo/discovery/est/util/order_calculation.py:134-144 | every activity of the log gets the sum of its 1-based first-occurrence indices divided by its trace frequency (0 when no trace contains it) |
| OrderCalculation.AddFirstOccurrenceIndices | pm4py/algo/discovery/est/util/order_calculation.py:139-144 | the loop with `break` adds exactly the first-occurrence index of each trace containing the activity, divided by the trace frequency, and never divides by 0 |
| OrderCalculation.AddFirstIndex | pm4py/algo/discovery/est/util/order_calculation.py:140-144 | scanning one trace adds its first-occurrence index of the activity divided by the trace frequency, and nothing when the activity is absent |
| OrderCalculation.AverageFirstOccurrenceRange | pm4py/algo/discovery/est/util/order_calculation.py:138-144 | the average first-occurrence index is at least 1 for an occurring activity and 0 for an absent one |
| OrderCalculation.MetricsOfOccurringActivities | pm4py/algo/discovery/est/util/order_calculation.py:111-121 | under one key, each activity's trace frequency lies between 1 and the number of traces and is at most its activity frequency, and its average first-occurrence index is at least 1 |
| OrderCalculation.ActivitiesComeFromConceptName | pm4py/algo/discovery/est/util/order_calculation.py:87 | with another activity key, the rated activities are still the `concept:name` values; such an activity can get frequency 0 |
| OrderCalculation.AbsoluteActivityFrequencyOrdering | pm4py/algo/discovery/est/util/order_calculation.py:78-94 | the new order totally orders the log's activities consistently with absolute activity frequency in the requested direction |
| OrderCalculation.AbsoluteTraceFrequencyOrdering | pm4py/algo/discovery/est/util/order_calculation.py:97-108 | the new order totally orders the log's activities consistently with absolute trace frequency in the requested direction |
| OrderCalculation.AverageFirstOccurrenceIndexOrdering | pm4py/algo/discovery/est/util/order_calculation.py:124-145 | the new order totally orders the log's activities consistently with the average first-occurrence index in the requested direction |
| OrderCalculation.LexicographicOrdering | pm4py/algo/discovery/est/util/order_calculation.py:154-156 | the keys are the log's activities; for ASC, a is smaller than b exactly when a < b as Python strings, and for DESC exactly when b < a; the table is a strict total order that records only activities of the log, so a non-activity is never larger |
| OrderCalculation.SearchSpaceOrderingBasedOnAbsoluteActivityFrequency | pm4py/algo/discovery/est/util/order_calculation.py:32-43 | input and output ordering are one and the same object, the descending activity-frequency order |
| OrderCalculation.SearchSpaceOrderingBasedOnAbsoluteTraceFrequency | pm4py/algo/discovery/est/util/order_calculation.py:46-57 | input and output ordering are one and the same object, the descending trace-frequency order |
| OrderCalculation.SearchSpaceOrderingBasedOnAverageFirstOccurrenceIndex | pm4py/algo/discovery/est/util/order_calculation.py:60-75 | the input ordering is descending and the output ordering ascending by average first-occurrence index; they are distinct objects, and their tables differ once two activities differ in that index |
| Sorting.SortByPermutes | pm4py/algo/discovery/est/util/order_calculation.py:150-151 | sorting returns a permutation of its input |
| Sorting.SortBySorts | pm4py/algo/discovery/est/util/order_calculation.py:150-151 | the result of sorting is ordered by any total preorder it is given |
| Sorting.SortByIsStable | pm4py/algo/discovery/est/util/order_calculation.py:150-151 | sorting keeps equally ranked elements in their original order, also for the reversed comparison |
| Sorting.InsertKeepsDistinct | pm4py/algo/discovery/est/util/order_calculation.py:150-151 | inserting a new element keeps a list without repetitions |
| Sorting.SortByKeepsDistinct | pm4py/algo/discovery/est/util/order_calculation.py:150-151 | sorting a list without repetitions gives a list without repetitions |
| Sorting.SortedPrecedesIffLe | pm4py/algo/discovery/est/util/order_calculation.py:156 | in a sorted list without repetitions and without ties, a comes before b exactly when a ranks at or below b |
| Sorting.LexLeIsTotalOrder | pm4py/algo/discovery/est/util/order_calculation.py:156 | Python's string order and its reverse are total preorders, and the string order is antisymmetric |
| EventLog.ActivityFrequenciesSumToEventCount | pm4py/algo/discovery/est/util/order_calculation.py:87-93 | the absolute activity frequencies of the log's distinct activities sum to the number of events |
| EventLog.TraceFrequencyAtMostTraces | pm4py/algo/discovery/est/util/order_calculation.py:111-121 | a trace frequency never exceeds the number of traces |
| EventLog.TraceFrequencyPositive | pm4py/algo/discovery/est/util/order_calculation.py:111-121 | the trace frequency is at least 1 exactly for the activities that occur in the log |
| EventLog.TraceFrequencyAtMostActivityFrequency | pm4py/algo/discovery/est/util/order_calculation.py:111-121 | an activity's trace frequency is at most its activity frequency |
| EventLog.FirstIndexRange | pm4py/algo/discovery/est/util/order_calculation.py:140-144 | the first-occurrence index lies in 1..length and points at the activity when it occurs, and is 0 when it does not |
| EventLog.FirstIndexAt | pm4py/algo/discovery/est/util/order_calculation.py:140-144 | the index at which the scan first meets the activity, plus one, is its first-occurrence index |
| EventLog.FirstIndexSumAtLeastTraceFrequency | pm4py/algo/discovery/est/util/order_calculation.py:138-144 | every trace containing the activity adds at least 1 to the sum of first-occurrence indices |
| PlaceFitness.PlaceFitnessState | pm4py/algo/discovery/est/util/place_fitness.py:24-40 | UNDERFED exactly when some event's check finds a negative count; OVERFED exactly when the final count over the whole log is positive; FITTING exactly when it is 0 and no check was negative; the result is never empty, and FITTING comes alone |
| PlaceFitness.ReplayTrace | pm4py/algo/discovery/est/util/place_fitness.py:28-35 | replaying one trace carries the counter over from the traces before it; afterwards the counter and UNDERFED describe the log up to and including that trace |
| PlaceFitness.ReplayStep | pm4py/algo/discovery/est/util/place_fitness.py:29-35 | one event consumes before the check and produces after it, and the place is underfed after it exactly when it was before or this check is negative |
| PlaceFitness.NegativeTokensMeanUnderfed | pm4py/algo/discovery/est/util/place_fitness.py:32-39 | a negative final count implies that UNDERFED was already recorded |
| PlaceFitness.TokensMonotone | pm4py/algo/discovery/est/util/place_fitness.py:30-35 | with more input and fewer output activities, the count at every check and at the end is at least as high |
| PlaceFitness.MoreOutputsKeepUnderfed | pm4py/algo/discovery/est/util/place_fitness.py:30-33 | adding output activities keeps an underfed place underfed |
| PlaceFitness.MoreInputsKeepOverfed | pm4py/algo/discovery/est/util/place_fitness.py:34-37 | adding input activities keeps an overfed place overfed |
| PlaceFitness.OtherDirectionsDoNotPrune | pm4py/algo/discovery/est/util/place_fitness.py:30-37 | adding an output activity can end overfeeding, and adding an input activity can end underfeeding |
| PlaceFitness.EmptyPlaceFits | pm4py/algo/discovery/est/util/place_fitness.py:25-39 | a place without input and output activities ends at 0 and is never short, so it is FITTING for every log |
| PlaceFitness.FittingExample | pm4py/algo/discovery/est/util/place_fitness.py:27-39 | on the trace a, b, c the place {a}→{c} ends at 0 and is never short: FITTING |
| PlaceFitness.OverfedExamples | pm4py/algo/discovery/est/util/place_fitness.py:27-37 | on the trace a, b, c the places {a, b}→{c} (one token left) and {a, c}→{d} are overfed but never short |
| PlaceFitness.UnderfedExample | pm4py/algo/discovery/est/util/place_fitness.py:30-33 | on the trace a, b, c the place {d}→{c} is short of a token at c and ends negative |
| PlaceFitness.OverfedAndUnderfedTogether | pm4py/algo/discovery/est/util/place_fitness.py:32-37 | a place can be underfed and overfed at once |
| PlaceFitness.CounterCarriesAcrossTraces | pm4py/algo/discovery/est/util/place_fitness.py:25-28 | the traces [a] and [c] are each unbalanced for {a}→{c}, but the log of both fits, because the count runs across traces |
| LogTransformation.ActivityEvent | pm4py/algo/discovery/est/util/log_transformation.py:7-8 | the added event carries exactly the activity key, with the given activity |
| LogTransformation.Framed | pm4py/algo/discovery/est/util/log_transformation.py:6-8 | a preprocessed trace is two events longer, starts with the start event and ends with the end event; an empty trace becomes [start, end] |
| LogTransformation.FramedKeepsEvents | pm4py/algo/discovery/est/util/log_transformation.py:7-8 | the original events stay unchanged and in order at positions 1 to n |
| LogTransformation.FramedLabels | pm4py/algo/discovery/est/util/log_transformation.py:7-8 | every event stays keyed, and the labels of a preprocessed trace are the original labels between the start and end activity |
| LogTransformation.AddUniqueStartAndEndActivity | pm4py/algo/discovery/est/util/log_transformation.py:5-9 | the same log is returned, with its traces in the same order; every trace is framed once for each occurrence in the log, and no other object changes |
| LogTransformation.DistinctTracesAreFramedOnce | pm4py/algo/discovery/est/util/log_transformation.py:6 | in a log of distinct trace objects, every trace is framed exactly once |
| LogTransformation.NotIdempotent | pm4py/algo/discovery/est/util/log_transformation.py:6-8 | preprocessing twice puts two start events in front and two end events at the back, and differs from preprocessing once |

## Left out

- The lattice search, its pruning, the "interesting places" heuristic and the Petri-net assembly. They are not implemented: both miner variants return `(None, None, None)` (pm4py/algo/discovery/est/variants/classic.py:17-18, pm4py/algo/discovery/est/variants/interesting_places.py:17-18). Only the pruning facts a search would rely on are proved.
- The variant dispatch and log conversion in pm4py/algo/discovery/est/algorithm.py, and the converters in pm4py/convert.py. They call modules that are not part of this model.
- pm4py/util/xes_constants.py and pm4py/objects/log/log.py are not part of this model. The default activity key is the XES `concept:name`. An event is an attribute map from strings to strings. A trace is a class holding a sequence of events.
- Python's `KeyError` for an event without the activity attribute. Each operation requires every event to carry the keys it reads. The metrics read `concept:name` to collect the activities and `activity_key` to match events; the lexicographic ordering reads only `concept:name` and ignores `activity_key`.
- Attribute values that are not strings. Keys of other types are also left out: the tests pass a float into the activity-key slot of `place_fitness_state`.
- Python's set and dictionary iteration order.
  - `AllActivities` returns the activities in a nondeterministic order.
  - `SortedActivities` takes the dictionary's key order as an argument.
- OrderCalculation.AverageFirstOccurrenceIndex: works with exact rationals, not floating point. Float rounding could make two averages that are equal as fractions compare unequal; that is not modelled.
- The `OrderType` enum's string values, and Python's mutable default arguments of `Place` and `FitnessState`. Place and fitness state are values in the model: the source never updates their fields.
- Unit tests that read XES files, and any other I/O.
