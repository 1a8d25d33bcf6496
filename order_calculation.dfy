/**
 * Activity orderings for the eST-miner's search space.  An `Order` records,
 * for each activity, the set of activities larger than it.  Orders are built
 * from a list of activities by list position; the list comes from sorting a
 * per-activity metric (absolute activity frequency, absolute trace frequency,
 * average first-occurrence index) or the activity names themselves.
 */
module OrderCalculation {
  import opened EventLog
  import opened Sorting

  datatype Option<T> = None | Some(value: T)

  datatype OrderType = ASC | DESC

  /** For each activity, the activities larger than it (`_smaller_than`). */
  class Order {
    var smallerThan: map<Activity, set<Activity>>

    constructor (activities: seq<Activity>)
      ensures forall a :: a in smallerThan <==> a in activities
      ensures forall a :: a in smallerThan ==> smallerThan[a] == {}
    {
      smallerThan := map a | a in activities :: {};
    }

    /** Records `smaller < larger`.  A missing argument does nothing; an unknown `smaller`
        is Python's `KeyError`, reported as `ok == false` with the order unchanged. */
    method AddRelation(larger: Option<Activity>, smaller: Option<Activity>) returns (ok: bool)
      modifies this
      ensures ok <==> !(larger.Some? && smaller.Some? && smaller.value !in old(smallerThan))
      ensures larger.Some? && smaller.Some? && ok ==>
                smallerThan == old(smallerThan)[smaller.value := old(smallerThan)[smaller.value] + {larger.value}]
      ensures !(larger.Some? && smaller.Some? && ok) ==> smallerThan == old(smallerThan)
    {
      ok := true;
      if larger.Some? && smaller.Some? {
        if smaller.value in smallerThan {
          smallerThan := smallerThan[smaller.value := smallerThan[smaller.value] + {larger.value}];
        } else {
          ok := false;
        }
      }
    }

    /** Whether `smaller < larger` was recorded; false for a missing argument or an unknown `smaller`. */
    function IsSmallerThan(smaller: Option<Activity>, larger: Option<Activity>): (r: bool)
      reads this
      ensures r ==> smaller.Some? && larger.Some? && smaller.value in smallerThan
      ensures r ==> larger.value in smallerThan[smaller.value]
      ensures smaller.Some? && larger.Some? && smaller.value in smallerThan ==>
                (r <==> larger.value in smallerThan[smaller.value])
    {
      var isComparable := smaller.Some? && larger.Some? && smaller.value in smallerThan;
      if isComparable then larger.value in smallerThan[smaller.value] else false
    }
  }

  /** The orderings used to grow the input and the output activity sets of a place. */
  datatype SearchSpaceOrdering = SearchSpaceOrdering(inputOrdering: Order, outputOrdering: Order)

  // ---------------------------------------------------------------------------
  // Properties of a `_smaller_than` table

  /** `rel` is what `OrderingFromSortedActivities(sorted)` builds: its keys are the listed
      activities, and b is larger than a when a different b is listed after a. */
  ghost predicate InducedBy(rel: map<Activity, set<Activity>>, sorted: seq<Activity>)
  {
    && (forall a :: a in rel <==> a in sorted)
    && (forall a, b :: a in rel ==> (b in rel[a] <==> a != b && Precedes(sorted, a, b)))
  }

  /** `rel` is a strict total order on its keys: irreflexive, exactly one direction
      between two different activities, and transitive. */
  ghost predicate StrictTotalOrder(rel: map<Activity, set<Activity>>)
  {
    && (forall a :: a in rel ==> a !in rel[a])
    && (forall a, b :: a in rel && b in rel[a] ==> b in rel)
    && (forall a, b :: a in rel && b in rel && a != b ==> (b in rel[a] <==> a !in rel[b]))
    && (forall a, b, c :: a in rel && b in rel[a] && b in rel && c in rel[b] ==> c in rel[a])
  }

  /** The metric value of `a`, as a sort key. */
  function Rank(metric: map<Activity, real>, a: Activity): real
  {
    if a in metric then metric[a] else 0.0
  }

  /** The comparison `sorted` uses: by metric value, ascending or descending. */
  function MetricLe(metric: map<Activity, real>, orderType: OrderType): (Activity, Activity) -> bool
  {
    if orderType == ASC then (u: Activity, v: Activity) => Rank(metric, u) <= Rank(metric, v)
    else (u: Activity, v: Activity) => Rank(metric, u) >= Rank(metric, v)
  }

  /** Every recorded `a < b` agrees with the metric in the direction of `orderType`. */
  ghost predicate RanksBy(rel: map<Activity, set<Activity>>, metric: map<Activity, real>, orderType: OrderType)
  {
    forall a, b :: a in rel && b in rel[a] ==> MetricLe(metric, orderType)(a, b)
  }

  /** `rel` totally orders exactly the metric's activities, consistently with the metric. */
  ghost predicate OrdersBy(rel: map<Activity, set<Activity>>, metric: map<Activity, real>, orderType: OrderType)
  {
    && (forall a :: a in rel <==> a in metric)
    && StrictTotalOrder(rel)
    && RanksBy(rel, metric, orderType)
  }

  lemma MetricLeIsTotalPreorder(metric: map<Activity, real>, orderType: OrderType)
    ensures TotalPreorder(MetricLe(metric, orderType))
  {
  }

  /** An order built from a list without repetitions is a strict total order on the list. */
  lemma InducedOrderIsStrictTotal(rel: map<Activity, set<Activity>>, sorted: seq<Activity>)
    requires InducedBy(rel, sorted) && Distinct(sorted)
    ensures StrictTotalOrder(rel)
  {
    forall a, b | a in rel && b in rel && a != b ensures b in rel[a] <==> a !in rel[b] {
      PrecedesExactlyOne(sorted, a, b);
    }
    forall a, b, c | a in rel && b in rel[a] && b in rel && c in rel[b] ensures c in rel[a] {
      PrecedesTransitive(sorted, a, b, c);
    }
  }

  /** An order built from a list sorted by a metric agrees with that metric. */
  lemma InducedOrderRanks(rel: map<Activity, set<Activity>>, sorted: seq<Activity>, metric: map<Activity, real>, orderType: OrderType)
    requires InducedBy(rel, sorted)
    requires SortedBy(sorted, MetricLe(metric, orderType))
    ensures RanksBy(rel, metric, orderType)
  {
    forall a, b | a in rel && b in rel[a] ensures MetricLe(metric, orderType)(a, b) {
      var i, j :| 0 <= i < j < |sorted| && sorted[i] == a && sorted[j] == b;
    }
  }

  /** A strictly smaller metric value decides the order: in an ascending order the activity with
      the smaller value is the smaller one, in a descending order the larger one. */
  lemma OrdersByStrictValues(rel: map<Activity, set<Activity>>, metric: map<Activity, real>, orderType: OrderType, a: Activity, b: Activity)
    requires OrdersBy(rel, metric, orderType)
    requires a in metric && b in metric && metric[a] < metric[b]
    ensures orderType == ASC ==> b in rel[a] && a !in rel[b]
    ensures orderType == DESC ==> a in rel[b] && b !in rel[a]
  {
    if orderType == ASC {
      assert !MetricLe(metric, orderType)(b, a);
    } else {
      assert !MetricLe(metric, orderType)(a, b);
    }
  }

  // ---------------------------------------------------------------------------
  // Building orders

  /** The order in which every activity is smaller than each different activity listed after it. */
  method OrderingFromSortedActivities(sorted: seq<Activity>) returns (order: Order)
    ensures fresh(order)
    ensures InducedBy(order.smallerThan, sorted)
    ensures forall a, b :: order.IsSmallerThan(Some(a), Some(b)) <==> a != b && Precedes(sorted, a, b)
  {
    order := new Order(sorted);
    for i := 0 to |sorted|
      invariant forall a :: a in order.smallerThan <==> a in sorted
      invariant forall a, b :: a in order.smallerThan ==>
                  (b in order.smallerThan[a] <==> AddedBefore(sorted, i, i, a, b))
    {
      AddRow(order, sorted, i);
      AddedBeforeNextRow(sorted, i);
    }
    forall a, b ensures AddedBefore(sorted, |sorted|, |sorted|, a, b) <==> a != b && Precedes(sorted, a, b) {
      if a != b && Precedes(sorted, a, b) {
        var p, q :| 0 <= p < q < |sorted| && sorted[p] == a && sorted[q] == b;
        assert AddedBefore(sorted, |sorted|, |sorted|, a, b);
      }
    }
    forall a, b | a != b && Precedes(sorted, a, b) ensures a in order.smallerThan {
      var p, q :| 0 <= p < q < |sorted| && sorted[p] == a && sorted[q] == b;
    }
  }

  /** The inner loop of `OrderingFromSortedActivities`: records every different activity listed
      from position i on as larger than the activity at position i. */
  method AddRow(order: Order, sorted: seq<Activity>, i: nat)
    requires i < |sorted|
    requires forall a :: a in order.smallerThan <==> a in sorted
    requires forall a, b :: a in order.smallerThan ==> (b in order.smallerThan[a] <==> AddedBefore(sorted, i, i, a, b))
    modifies order
    ensures forall a :: a in order.smallerThan <==> a in sorted
    ensures forall a, b :: a in order.smallerThan ==> (b in order.smallerThan[a] <==> AddedBefore(sorted, i, |sorted|, a, b))
  {
    for j := i to |sorted|
      invariant forall a :: a in order.smallerThan <==> a in sorted
      invariant forall a, b :: a in order.smallerThan ==>
                  (b in order.smallerThan[a] <==> AddedBefore(sorted, i, j, a, b))
    {
      var larger := sorted[j];
      var smaller := sorted[i];
      if larger != smaller {
        var _ := order.AddRelation(Some(larger), Some(smaller));
      }
      AddedBeforeStep(sorted, i, j);
    }
  }

  /** The pairs the nested loops of `OrderingFromSortedActivities` have added once the outer
      loop is at row i and the inner loop at column j. */
  ghost predicate AddedBefore(sorted: seq<Activity>, i: int, j: int, a: Activity, b: Activity)
  {
    a != b && exists p, q :: 0 <= p <= q < |sorted| && sorted[p] == a && sorted[q] == b && (p < i || (p == i && q < j))
  }

  lemma AddedBeforeStep(sorted: seq<Activity>, i: int, j: int)
    requires 0 <= i <= j < |sorted|
    ensures forall a, b :: AddedBefore(sorted, i, j + 1, a, b) <==>
              AddedBefore(sorted, i, j, a, b) || (a == sorted[i] && b == sorted[j] && a != b)
  {
    forall a, b | AddedBefore(sorted, i, j + 1, a, b)
      ensures AddedBefore(sorted, i, j, a, b) || (a == sorted[i] && b == sorted[j] && a != b)
    {
      var p, q :| 0 <= p <= q < |sorted| && sorted[p] == a && sorted[q] == b && (p < i || (p == i && q < j + 1));
    }
  }

  lemma AddedBeforeNextRow(sorted: seq<Activity>, i: int)
    requires 0 <= i < |sorted|
    ensures forall a, b :: AddedBefore(sorted, i, |sorted|, a, b) <==> AddedBefore(sorted, i + 1, i + 1, a, b)
  {
  }

  /** The activities of the log, each once, in an unspecified order (a Python `set` turned into a list). */
  method AllActivities(log: seq<seq<Event>>, activityKey: string := DefaultNameKey) returns (activities: seq<Activity>)
    requires Keyed(log, activityKey)
    ensures Distinct(activities)
    ensures forall a :: a in activities <==> a in Activities(Labels(log, activityKey))
  {
    var remaining := Activities(Labels(log, activityKey));
    activities := [];
    while remaining != {}
      invariant Distinct(activities)
      invariant forall a :: a in activities ==> a !in remaining
      invariant forall a :: a in Activities(Labels(log, activityKey)) <==> a in activities || a in remaining
      decreases |remaining|
    {
      var a :| a in remaining;
      activities := activities + [a];
      remaining := remaining - {a};
    }
  }

  /** The list of a metric's activities sorted by value, ascending or descending; equal values
      keep the order of `keys`, the iteration order of the metric dictionary. */
  function SortedActivities(activityMetric: map<Activity, real>, keys: seq<Activity>, orderType: OrderType): (sorted: seq<Activity>)
    requires Distinct(keys) && forall a :: a in keys <==> a in activityMetric
    ensures Distinct(sorted)
    ensures forall a :: a in sorted <==> a in activityMetric
    ensures orderType == ASC ==> forall i, j :: 0 <= i < j < |sorted| ==> activityMetric[sorted[i]] <= activityMetric[sorted[j]]
    ensures orderType == DESC ==> forall i, j :: 0 <= i < j < |sorted| ==> activityMetric[sorted[i]] >= activityMetric[sorted[j]]
    ensures forall i, j :: 0 <= i < j < |sorted| && activityMetric[sorted[i]] == activityMetric[sorted[j]] ==>
              Precedes(keys, sorted[i], sorted[j])
  {
    SortByMetric(activityMetric, keys, orderType);
    SortBy(keys, MetricLe(activityMetric, orderType))
  }

  lemma SortByMetric(activityMetric: map<Activity, real>, keys: seq<Activity>, orderType: OrderType)
    requires Distinct(keys) && forall a :: a in keys <==> a in activityMetric
    ensures var sorted := SortBy(keys, MetricLe(activityMetric, orderType));
      && Distinct(sorted)
      && (forall a :: a in sorted <==> a in activityMetric)
      && (orderType == ASC ==> forall i, j :: 0 <= i < j < |sorted| ==> activityMetric[sorted[i]] <= activityMetric[sorted[j]])
      && (orderType == DESC ==> forall i, j :: 0 <= i < j < |sorted| ==> activityMetric[sorted[i]] >= activityMetric[sorted[j]])
      && (forall i, j :: 0 <= i < j < |sorted| && activityMetric[sorted[i]] == activityMetric[sorted[j]] ==>
            Precedes(keys, sorted[i], sorted[j]))
  {
    var le := MetricLe(activityMetric, orderType);
    var sorted := SortBy(keys, le);
    assert Distinct(sorted) && forall a :: a in sorted <==> a in activityMetric by {
      SortByPermutes(keys, le);
      SortByKeepsDistinct(keys, le);
      assert forall a :: a in sorted <==> a in multiset(sorted);
    }
    assert SortedBy(sorted, le) by {
      MetricLeIsTotalPreorder(activityMetric, orderType);
      SortBySorts(keys, le);
    }
    assert KeepsTieOrder(keys, sorted, le) by {
      SortByIsStable(keys, le);
    }
    forall i, j | 0 <= i < j < |sorted| && activityMetric[sorted[i]] == activityMetric[sorted[j]]
      ensures Precedes(keys, sorted[i], sorted[j])
    {
      assert le(sorted[j], sorted[i]);
    }
  }

  /** Sorting makes a strictly smaller value come first in ascending order and last in descending order. */
  lemma SortedActivitiesSeparateDifferentValues(activityMetric: map<Activity, real>, keys: seq<Activity>, a: Activity, b: Activity)
    requires Distinct(keys) && forall x :: x in keys <==> x in activityMetric
    requires a in activityMetric && b in activityMetric && activityMetric[a] < activityMetric[b]
    ensures Precedes(SortedActivities(activityMetric, keys, ASC), a, b)
    ensures Precedes(SortedActivities(activityMetric, keys, DESC), b, a)
  {
    var asc := SortedActivities(activityMetric, keys, ASC);
    var desc := SortedActivities(activityMetric, keys, DESC);
    PrecedesExactlyOne(asc, a, b);
    PrecedesExactlyOne(desc, a, b);
  }

  /** Activities with equal values are not mirrored: ascending and descending sorts both keep
      them in the dictionary's key order. */
  lemma SortedActivitiesKeepTiesInKeyOrder(activityMetric: map<Activity, real>, keys: seq<Activity>, a: Activity, b: Activity)
    requires Distinct(keys) && forall x :: x in keys <==> x in activityMetric
    requires a in activityMetric && b in activityMetric && a != b && activityMetric[a] == activityMetric[b]
    ensures Precedes(SortedActivities(activityMetric, keys, ASC), a, b) <==> Precedes(keys, a, b)
    ensures Precedes(SortedActivities(activityMetric, keys, DESC), a, b) <==> Precedes(keys, a, b)
  {
    PrecedesExactlyOne(keys, a, b);
    TiesFollowKeys(activityMetric, keys, ASC, a, b);
    TiesFollowKeys(activityMetric, keys, DESC, a, b);
  }

  lemma TiesFollowKeys(activityMetric: map<Activity, real>, keys: seq<Activity>, orderType: OrderType, a: Activity, b: Activity)
    requires Distinct(keys) && forall x :: x in keys <==> x in activityMetric
    requires a in activityMetric && b in activityMetric && a != b && activityMetric[a] == activityMetric[b]
    ensures Precedes(SortedActivities(activityMetric, keys, orderType), a, b) <==> Precedes(keys, a, b)
  {
    var sorted := SortedActivities(activityMetric, keys, orderType);
    PrecedesExactlyOne(sorted, a, b);
    PrecedesExactlyOne(keys, a, b);
    if Precedes(sorted, a, b) {
      var i, j :| 0 <= i < j < |sorted| && sorted[i] == a && sorted[j] == b;
    } else {
      var i, j :| 0 <= i < j < |sorted| && sorted[i] == b && sorted[j] == a;
    }
  }

  /** The order built from a metric: sorted by value, ties broken by list position. */
  method OrderingFromMetric(activityMetric: map<Activity, real>, keys: seq<Activity>, orderType: OrderType) returns (order: Order)
    requires Distinct(keys) && forall a :: a in keys <==> a in activityMetric
    ensures fresh(order)
    ensures OrdersBy(order.smallerThan, activityMetric, orderType)
  {
    var sorted := SortedActivities(activityMetric, keys, orderType);
    order := OrderingFromSortedActivities(sorted);
    InducedOrderIsStrictTotal(order.smallerThan, sorted);
    forall i, j | 0 <= i < j < |sorted| ensures MetricLe(activityMetric, orderType)(sorted[i], sorted[j]) {
    }
    InducedOrderRanks(order.smallerThan, sorted, activityMetric, orderType);
  }

  // ---------------------------------------------------------------------------
  // Metrics
  //
  // The metric functions take the activities to rate separately from the traces to count in:
  // the log's activities are always collected under `concept:name`, whereas the events are
  // matched under the caller's activity key.

  /** absAF: the number of events labelled with each activity. */
  function ActivityFrequencyMetric(activities: set<Activity>, traces: seq<seq<Activity>>): map<Activity, real>
  {
    map a | a in activities :: Count(Flatten(traces), {a}) as real
  }

  /** absTF: the number of traces containing each activity. */
  function TraceFrequencyMetric(activities: set<Activity>, traces: seq<seq<Activity>>): map<Activity, real>
  {
    map a | a in activities :: TraceFrequency(traces, a) as real
  }

  /** The first-occurrence index of `a` averaged over the traces containing it, as an exact
      rational; 0 when no trace contains `a`. */
  function AverageFirstOccurrence(traces: seq<seq<Activity>>, a: Activity): real
  {
    if TraceFrequency(traces, a) == 0 then 0.0 else FirstIndexSum(traces, a) as real / TraceFrequency(traces, a) as real
  }

  /** avgFOI: the average first-occurrence index of each activity. */
  function AverageFirstOccurrenceMetric(activities: set<Activity>, traces: seq<seq<Activity>>): map<Activity, real>
  {
    map a | a in activities :: AverageFirstOccurrence(traces, a)
  }

  /** The average first-occurrence index of an occurring activity is at least 1; it is 0 for an
      activity that does not occur. */
  lemma AverageFirstOccurrenceRange(traces: seq<seq<Activity>>, a: Activity)
    ensures a in Flatten(traces) ==> AverageFirstOccurrence(traces, a) >= 1.0
    ensures a !in Flatten(traces) ==> AverageFirstOccurrence(traces, a) == 0.0
  {
    TraceFrequencyPositive(traces, a);
    if a in Flatten(traces) {
      FirstIndexSumAtLeastTraceFrequency(traces, a);
      FractionAtLeastOne(FirstIndexSum(traces, a), TraceFrequency(traces, a));
    }
  }

  lemma FractionAtLeastOne(x: nat, d: nat)
    requires 0 < d <= x
    ensures x as real / d as real >= 1.0
  {
    assert x as real >= d as real;
  }

  /** When the activities are the log's own (one activity key throughout), every activity has a
      trace frequency between 1 and the number of traces, at most its activity frequency, and an
      average first-occurrence index of at least 1. */
  lemma MetricsOfOccurringActivities(traces: seq<seq<Activity>>, a: Activity)
    requires a in Activities(traces)
    ensures 1.0 <= TraceFrequencyMetric(Activities(traces), traces)[a] <= |traces| as real
    ensures TraceFrequencyMetric(Activities(traces), traces)[a] <= ActivityFrequencyMetric(Activities(traces), traces)[a]
    ensures AverageFirstOccurrenceMetric(Activities(traces), traces)[a] >= 1.0
  {
    TraceFrequencyPositive(traces, a);
    TraceFrequencyAtMostTraces(traces, a);
    TraceFrequencyAtMostActivityFrequency(traces, a);
    AverageFirstOccurrenceRange(traces, a);
  }

  /** The activities are collected under `concept:name` whatever the activity key: with another
      key, an event named x whose activity under that key is y makes x an activity of frequency 0. */
  lemma ActivitiesComeFromConceptName(activityKey: string, x: Activity, y: Activity)
    requires activityKey != DefaultNameKey && x != y
    ensures var log := [[map[DefaultNameKey := x, activityKey := y]]];
      && Keyed(log, DefaultNameKey) && Keyed(log, activityKey)
      && Activities(Labels(log, DefaultNameKey)) == {x}
      && ActivityFrequencyMetric(Activities(Labels(log, DefaultNameKey)), Labels(log, activityKey)) == map[x := 0.0]
  {
    var event := map[DefaultNameKey := x, activityKey := y];
    SingleEventLabels(event, DefaultNameKey);
    SingleEventLabels(event, activityKey);
    SingleEventFlatten(x);
    SingleEventFlatten(y);
    assert [y][..0] == [];
    assert Count([y], {x}) == 0;
  }

  lemma SingleEventLabels(event: Event, key: string)
    requires key in event
    ensures Keyed([[event]], key)
    ensures Labels([[event]], key) == [[event[key]]]
  {
    var labels := Labels([[event]], key);
    assert labels[0] == [event[key]];
  }

  lemma SingleEventFlatten(a: Activity)
    ensures Flatten([[a]]) == [a]
    ensures Activities([[a]]) == {a}
  {
    assert [[a]][..0] == [];
  }

  /** Counts, for every activity of the log (collected under `concept:name`), the events
      carrying it under `activityKey`. */
  method AbsoluteActivityFrequency(log: seq<seq<Event>>, activityKey: string) returns (activities: seq<Activity>, frequency: map<Activity, nat>)
    requires Keyed(log, DefaultNameKey) && Keyed(log, activityKey)
    ensures Distinct(activities)
    ensures forall a :: a in activities <==> a in Activities(Labels(log, DefaultNameKey))
    ensures forall a :: a in frequency <==> a in activities
    ensures forall a :: a in frequency ==> frequency[a] == Count(AllEvents(log, activityKey), {a})
  {
    activities := AllActivities(log);
    frequency := map a | a in activities :: 0;
    for i := 0 to |activities|
      invariant forall a :: a in frequency <==> a in activities
      invariant forall k :: 0 <= k < i ==> frequency[activities[k]] == Count(AllEvents(log, activityKey), {activities[k]})
      invariant forall k :: i <= k < |activities| ==> frequency[activities[k]] == 0
    {
      var a := activities[i];
      var updated := AddActivityOccurrences(log, activityKey, a, frequency[a]);
      frequency := frequency[a := updated];
    }
  }

  /** The loop over the log for one activity `a`: starting from `count`, adds one for every
      event labelled `a`. */
  method AddActivityOccurrences(log: seq<seq<Event>>, activityKey: string, a: Activity, count: nat) returns (updated: nat)
    requires Keyed(log, activityKey)
    ensures updated == count + Count(AllEvents(log, activityKey), {a})
  {
    ghost var traces := Labels(log, activityKey);
    updated := count;
    for t := 0 to |log|
      invariant updated == count + Count(Flatten(traces[..t]), {a})
    {
      for e := 0 to |log[t]|
        invariant updated == count + Count(Flatten(traces[..t]), {a}) + Count(traces[t][..e], {a})
      {
        CountSnoc(traces[t], e, {a});
        if log[t][e][activityKey] == a {
          updated := updated + 1;
        }
      }
      assert traces[t][..|traces[t]|] == traces[t];
      FlattenPrefix(traces, t);
      CountAppend(Flatten(traces[..t]), traces[t], {a});
    }
    assert traces[..|log|] == traces;
  }

  /** Counts, for every activity of the log (collected under `concept:name`), the traces
      containing it under `activityKey`. */
  method AbsoluteTraceFrequency(log: seq<seq<Event>>, activityKey: string := DefaultNameKey) returns (activities: seq<Activity>, frequency: map<Activity, nat>)
    requires Keyed(log, DefaultNameKey) && Keyed(log, activityKey)
    ensures Distinct(activities)
    ensures forall a :: a in activities <==> a in Activities(Labels(log, DefaultNameKey))
    ensures forall a :: a in frequency <==> a in activities
    ensures forall a :: a in frequency ==> frequency[a] == TraceFrequency(Labels(log, activityKey), a)
  {
    activities := AllActivities(log);
    frequency := map a | a in activities :: 0;
    for i := 0 to |activities|
      invariant forall a :: a in frequency <==> a in activities
      invariant forall k :: 0 <= k < i ==> frequency[activities[k]] == TraceFrequency(Labels(log, activityKey), activities[k])
      invariant forall k :: i <= k < |activities| ==> frequency[activities[k]] == 0
    {
      var a := activities[i];
      var updated := AddTraceOccurrences(log, activityKey, a, frequency[a]);
      frequency := frequency[a := updated];
    }
  }

  /** The loop over the log for one activity `a`: starting from `count`, collects the activities
      of each trace and adds one when `a` is among them. */
  method AddTraceOccurrences(log: seq<seq<Event>>, activityKey: string, a: Activity, count: nat) returns (updated: nat)
    requires Keyed(log, activityKey)
    ensures updated == count + TraceFrequency(Labels(log, activityKey), a)
  {
    ghost var traces := Labels(log, activityKey);
    updated := count;
    for t := 0 to |log|
      invariant updated == count + TraceFrequency(traces[..t], a)
    {
      var containedActivities: set<Activity> := {};
      for e := 0 to |log[t]|
        invariant forall b :: b in containedActivities <==> b in traces[t][..e]
      {
        assert traces[t][..e + 1] == traces[t][..e] + [traces[t][e]];
        containedActivities := containedActivities + {log[t][e][activityKey]};
      }
      assert traces[t][..|traces[t]|] == traces[t];
      assert traces[..t + 1][..t] == traces[..t];
      updated := updated + (if a in containedActivities then 1 else 0);
    }
    assert traces[..|log|] == traces;
  }

  /** Sums, for every activity of the log (collected under `concept:name`), its 1-based
      first-occurrence index under `activityKey` over the traces containing it, each divided by
      its trace frequency. */
  method AverageFirstOccurrenceIndex(log: seq<seq<Event>>, activityKey: string) returns (activities: seq<Activity>, average: map<Activity, real>)
    requires Keyed(log, DefaultNameKey) && Keyed(log, activityKey)
    ensures Distinct(activities)
    ensures forall a :: a in activities <==> a in Activities(Labels(log, DefaultNameKey))
    ensures average == AverageFirstOccurrenceMetric(Activities(Labels(log, DefaultNameKey)), Labels(log, activityKey))
  {
    activities := AllActivities(log);
    var _, absTraceFrequency := AbsoluteTraceFrequency(log, activityKey);
    ghost var traces := Labels(log, activityKey);
    average := map a | a in activities :: 0.0;
    for i := 0 to |activities|
      invariant forall a :: a in average <==> a in activities
      invariant forall k :: 0 <= k < i ==> average[activities[k]] == AverageFirstOccurrence(traces, activities[k])
      invariant forall k :: i <= k < |activities| ==> average[activities[k]] == 0.0
    {
      var a := activities[i];
      var updated := AddFirstOccurrenceIndices(log, activityKey, a, absTraceFrequency[a], average[a]);
      average := average[a := updated];
    }
    forall b | b in average ensures average[b] == AverageFirstOccurrence(traces, b) {
      var k :| 0 <= k < |activities| && activities[k] == b;
    }
  }

  /** The loop over the log for one activity `a`: starting from `average`, adds for each trace
      containing `a` the 1-based index of its first occurrence divided by `traceFrequency`.  The
      division is only reached once `a` is found, so a trace frequency of 0 is never divided by. */
  method AddFirstOccurrenceIndices(log: seq<seq<Event>>, activityKey: string, a: Activity, traceFrequency: nat, average: real)
    returns (updated: real)
    requires Keyed(log, activityKey)
    requires traceFrequency == TraceFrequency(Labels(log, activityKey), a)
    ensures updated == average + AverageFirstOccurrence(Labels(log, activityKey), a)
  {
    ghost var traces := Labels(log, activityKey);
    ghost var divisor: real := if traceFrequency == 0 then 1.0 else traceFrequency as real;
    updated := average;
    for t := 0 to |log|
      invariant updated == average + FirstIndexSum(traces[..t], a) as real / divisor
    {
      ghost var before := updated;
      updated := AddFirstIndex(log, activityKey, t, a, traceFrequency, updated);
      FirstIndexSumPrefix(traces, t, a);
      SumOfFractions(before - average, FirstIndexSum(traces[..t], a), FirstIndex(traces[t], a), divisor);
    }
    assert traces[..|log|] == traces;
    TraceFrequencyPositive(traces, a);
    if traceFrequency == 0 {
      FirstIndexSumOfAbsent(traces, a);
    }
  }

  /** The scan of trace `t` for `a`: at its first occurrence, adds the 1-based index divided by
      `traceFrequency` and stops. */
  method AddFirstIndex(log: seq<seq<Event>>, activityKey: string, t: nat, a: Activity, traceFrequency: nat, value: real)
    returns (updated: real)
    requires Keyed(log, activityKey) && t < |log|
    requires traceFrequency == TraceFrequency(Labels(log, activityKey), a)
    ensures updated == value + FirstIndex(Labels(log, activityKey)[t], a) as real /
                                 (if traceFrequency == 0 then 1.0 else traceFrequency as real)
  {
    ghost var trace := Labels(log, activityKey)[t];
    FirstIndexRange(trace, a);
    updated := value;
    var e := 0;
    while e < |log[t]|
      invariant 0 <= e <= |log[t]|
      invariant a !in trace[..e]
      invariant updated == value
    {
      if log[t][e][activityKey] == a {
        FirstIndexAt(trace, a, e);
        OccurringActivityHasTraceFrequency(Labels(log, activityKey), t, e);
        updated := updated + (e + 1) as real / traceFrequency as real;
        return;
      }
      assert trace[..e + 1] == trace[..e] + [trace[e]];
      e := e + 1;
    }
    assert trace[..|trace|] == trace;
  }

  /** An activity seen in some trace has a positive trace frequency. */
  lemma OccurringActivityHasTraceFrequency(traces: seq<seq<Activity>>, t: nat, e: nat)
    requires t < |traces| && e < |traces[t]|
    ensures TraceFrequency(traces, traces[t][e]) >= 1
  {
    InFlatten(traces, traces[t][e]);
    TraceFrequencyPositive(traces, traces[t][e]);
  }

  /** An activity that occurs nowhere has first-index sum 0. */
  lemma {:induction false} FirstIndexSumOfAbsent(traces: seq<seq<Activity>>, a: Activity)
    requires a !in Flatten(traces)
    ensures FirstIndexSum(traces, a) == 0
  {
    if traces != [] {
      var n := |traces| - 1;
      assert Flatten(traces) == Flatten(traces[..n]) + traces[n];
      FirstIndexRange(traces[n], a);
      FirstIndexSumOfAbsent(traces[..n], a);
    }
  }

  lemma SumOfFractions(average: real, x: nat, y: nat, d: real)
    requires d > 0.0 && average == x as real / d
    ensures average + y as real / d == (x + y) as real / d
  {
  }

  // ---------------------------------------------------------------------------
  // Orderings

  /** The order of the activities by absolute activity frequency. */
  method AbsoluteActivityFrequencyOrdering(log: seq<seq<Event>>, activityKey: string := DefaultNameKey, orderType: OrderType := ASC) returns (order: Order)
    requires Keyed(log, DefaultNameKey) && Keyed(log, activityKey)
    ensures fresh(order)
    ensures OrdersBy(order.smallerThan, ActivityFrequencyMetric(Activities(Labels(log, DefaultNameKey)), Labels(log, activityKey)), orderType)
  {
    var activities, absActivityFrequency := AbsoluteActivityFrequency(log, activityKey);
    var metric := map a | a in absActivityFrequency :: absActivityFrequency[a] as real;
    assert metric == ActivityFrequencyMetric(Activities(Labels(log, DefaultNameKey)), Labels(log, activityKey));
    order := OrderingFromMetric(metric, activities, orderType);
  }

  /** The order of the activities by absolute trace frequency. */
  method AbsoluteTraceFrequencyOrdering(log: seq<seq<Event>>, activityKey: string := DefaultNameKey, orderType: OrderType := ASC) returns (order: Order)
    requires Keyed(log, DefaultNameKey) && Keyed(log, activityKey)
    ensures fresh(order)
    ensures OrdersBy(order.smallerThan, TraceFrequencyMetric(Activities(Labels(log, DefaultNameKey)), Labels(log, activityKey)), orderType)
  {
    var activities, absTraceFrequency := AbsoluteTraceFrequency(log, activityKey);
    var metric := map a | a in absTraceFrequency :: absTraceFrequency[a] as real;
    assert metric == TraceFrequencyMetric(Activities(Labels(log, DefaultNameKey)), Labels(log, activityKey));
    order := OrderingFromMetric(metric, activities, orderType);
  }

  /** The order of the activities by average first-occurrence index. */
  method AverageFirstOccurrenceIndexOrdering(log: seq<seq<Event>>, activityKey: string := DefaultNameKey, orderType: OrderType := ASC) returns (order: Order)
    requires Keyed(log, DefaultNameKey) && Keyed(log, activityKey)
    ensures fresh(order)
    ensures OrdersBy(order.smallerThan, AverageFirstOccurrenceMetric(Activities(Labels(log, DefaultNameKey)), Labels(log, activityKey)), orderType)
  {
    var activities, avgFirstOccurrenceIndex := AverageFirstOccurrenceIndex(log, activityKey);
    order := OrderingFromMetric(avgFirstOccurrenceIndex, activities, orderType);
  }

  /** The order of the activities by name, as Python compares strings.  The activities are
      collected under `concept:name`; `activityKey` is not used. */
  method LexicographicOrdering(log: seq<seq<Event>>, activityKey: string := DefaultNameKey, orderType: OrderType := ASC) returns (order: Order)
    requires Keyed(log, DefaultNameKey)
    ensures fresh(order)
    ensures forall a :: a in order.smallerThan <==> a in Activities(Labels(log, DefaultNameKey))
    ensures forall a, b :: a in order.smallerThan && b in order.smallerThan ==>
              (order.IsSmallerThan(Some(a), Some(b)) <==> if orderType == ASC then LexLess(a, b) else LexLess(b, a))
    ensures StrictTotalOrder(order.smallerThan)
  {
    var reverse := orderType == DESC;
    var activities := AllActivities(log);
    var le := if reverse then (u: Activity, v: Activity) => LexLe(v, u) else LexLe;
    LexLeIsTotalOrder();
    SortByPermutes(activities, le);
    SortByKeepsDistinct(activities, le);
    SortBySorts(activities, le);
    var sorted := SortBy(activities, le);
    assert forall a :: a in sorted <==> a in multiset(sorted);
    order := OrderingFromSortedActivities(sorted);
    InducedOrderIsStrictTotal(order.smallerThan, sorted);
    forall a, b | a in order.smallerThan && b in order.smallerThan
      ensures order.IsSmallerThan(Some(a), Some(b)) <==> if orderType == ASC then LexLess(a, b) else LexLess(b, a)
    {
      if a != b {
        SortedPrecedesIffLe(sorted, le, a, b);
      }
    }
  }

  // ---------------------------------------------------------------------------
  // Search-space orderings

  /** Input and output are both the descending absolute-activity-frequency order: one object. */
  method SearchSpaceOrderingBasedOnAbsoluteActivityFrequency(log: seq<seq<Event>>, activityKey: string := DefaultNameKey) returns (ordering: SearchSpaceOrdering)
    requires Keyed(log, DefaultNameKey) && Keyed(log, activityKey)
    ensures fresh(ordering.inputOrdering)
    ensures ordering.inputOrdering == ordering.outputOrdering
    ensures OrdersBy(ordering.inputOrdering.smallerThan, ActivityFrequencyMetric(Activities(Labels(log, DefaultNameKey)), Labels(log, activityKey)), DESC)
  {
    var order := AbsoluteActivityFrequencyOrdering(log, activityKey, DESC);
    ordering := SearchSpaceOrdering(order, order);
  }

  /** Input and output are both the descending absolute-trace-frequency order: one object. */
  method SearchSpaceOrderingBasedOnAbsoluteTraceFrequency(log: seq<seq<Event>>, activityKey: string := DefaultNameKey) returns (ordering: SearchSpaceOrdering)
    requires Keyed(log, DefaultNameKey) && Keyed(log, activityKey)
    ensures fresh(ordering.inputOrdering)
    ensures ordering.inputOrdering == ordering.outputOrdering
    ensures OrdersBy(ordering.inputOrdering.smallerThan, TraceFrequencyMetric(Activities(Labels(log, DefaultNameKey)), Labels(log, activityKey)), DESC)
  {
    var order := AbsoluteTraceFrequencyOrdering(log, activityKey, DESC);
    ordering := SearchSpaceOrdering(order, order);
  }

  /** The input order is descending and the output order ascending by average first-occurrence
      index; as soon as two activities differ in that index the two tables differ. */
  method SearchSpaceOrderingBasedOnAverageFirstOccurrenceIndex(log: seq<seq<Event>>, activityKey: string := DefaultNameKey) returns (ordering: SearchSpaceOrdering)
    requires Keyed(log, DefaultNameKey) && Keyed(log, activityKey)
    ensures fresh(ordering.inputOrdering) && fresh(ordering.outputOrdering)
    ensures ordering.inputOrdering != ordering.outputOrdering
    ensures OrdersBy(ordering.inputOrdering.smallerThan, AverageFirstOccurrenceMetric(Activities(Labels(log, DefaultNameKey)), Labels(log, activityKey)), DESC)
    ensures OrdersBy(ordering.outputOrdering.smallerThan, AverageFirstOccurrenceMetric(Activities(Labels(log, DefaultNameKey)), Labels(log, activityKey)), ASC)
    ensures var metric := AverageFirstOccurrenceMetric(Activities(Labels(log, DefaultNameKey)), Labels(log, activityKey));
      forall a, b :: (a in metric && b in metric && metric[a] < metric[b]) ==>
        ordering.inputOrdering.smallerThan != ordering.outputOrdering.smallerThan
  {
    var inputOrdering := AverageFirstOccurrenceIndexOrdering(log, activityKey, DESC);
    var outputOrdering := AverageFirstOccurrenceIndexOrdering(log, activityKey, ASC);
    ordering := SearchSpaceOrdering(inputOrdering, outputOrdering);
    ghost var metric := AverageFirstOccurrenceMetric(Activities(Labels(log, DefaultNameKey)), Labels(log, activityKey));
    forall a, b | a in metric && b in metric && metric[a] < metric[b]
      ensures inputOrdering.smallerThan != outputOrdering.smallerThan
    {
      OrdersByStrictValues(inputOrdering.smallerThan, metric, DESC, a, b);
      OrdersByStrictValues(outputOrdering.smallerThan, metric, ASC, a, b);
    }
  }
}
