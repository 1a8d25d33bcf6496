/**
 * Event logs as the eST-miner utilities read them: a log is a list of traces,
 * a trace a list of events, and an event a dictionary of attributes of which
 * only the activity attribute is ever looked at.  The functions here describe
 * a log by the activity labels it contains; the operations of the other
 * modules are specified with them.
 */
module EventLog {

  type Activity = string

  /** An event: attribute name to attribute value. */
  type Event = map<string, string>

  /** The activity attribute of the XES standard (`concept:name`). */
  const DefaultNameKey: string := "concept:name"

  /** Every event carries the attribute `key`; looking it up never fails. */
  predicate Keyed(log: seq<seq<Event>>, key: string)
  {
    forall t, e :: 0 <= t < |log| && 0 <= e < |log[t]| ==> key in log[t][e]
  }

  /** The log with every event replaced by its activity label. */
  function Labels(log: seq<seq<Event>>, key: string): (labels: seq<seq<Activity>>)
    requires Keyed(log, key)
    ensures |labels| == |log|
    ensures forall t :: 0 <= t < |log| ==> |labels[t]| == |log[t]|
    ensures forall t, e :: 0 <= t < |log| && 0 <= e < |log[t]| ==> labels[t][e] == log[t][e][key]
  {
    seq(|log|, t requires 0 <= t < |log| =>
      seq(|log[t]|, e requires 0 <= e < |log[t]| => log[t][e][key]))
  }

  /** All events of the log, trace after trace, in their original order. */
  function Flatten(traces: seq<seq<Activity>>): seq<Activity>
  {
    if traces == [] then [] else Flatten(traces[..|traces| - 1]) + traces[|traces| - 1]
  }

  /** The activity labels of all events of the log, as one sequence. */
  function AllEvents(log: seq<seq<Event>>, key: string): seq<Activity>
    requires Keyed(log, key)
  {
    Flatten(Labels(log, key))
  }

  /** The activities that occur in the log. */
  function Activities(traces: seq<seq<Activity>>): set<Activity>
  {
    set a | a in Flatten(traces)
  }

  /** The number of events whose activity is in `acts`. */
  function Count(events: seq<Activity>, acts: set<Activity>): nat
  {
    if events == [] then 0
    else Count(events[..|events| - 1], acts) + (if events[|events| - 1] in acts then 1 else 0)
  }

  /** The absolute trace frequency: the number of traces in which `a` occurs. */
  function TraceFrequency(traces: seq<seq<Activity>>, a: Activity): nat
  {
    if traces == [] then 0
    else TraceFrequency(traces[..|traces| - 1], a) + (if a in traces[|traces| - 1] then 1 else 0)
  }

  /** The 1-based index of the first occurrence of `a` in `trace`, or 0 when `a` does not occur. */
  function FirstIndex(trace: seq<Activity>, a: Activity): nat
  {
    if trace == [] then 0
    else if trace[0] == a then 1
    else if a in trace[1..] then FirstIndex(trace[1..], a) + 1
    else 0
  }

  /** The sum, over the traces containing `a`, of the index of its first occurrence. */
  function FirstIndexSum(traces: seq<seq<Activity>>, a: Activity): nat
  {
    if traces == [] then 0
    else FirstIndexSum(traces[..|traces| - 1], a) + FirstIndex(traces[|traces| - 1], a)
  }

  // ---------------------------------------------------------------------------
  // Facts about logs

  lemma FlattenPrefix(traces: seq<seq<Activity>>, t: nat)
    requires t < |traces|
    ensures Flatten(traces[..t + 1]) == Flatten(traces[..t]) + traces[t]
  {
    assert traces[..t + 1][..t] == traces[..t];
  }

  lemma FirstIndexSumPrefix(traces: seq<seq<Activity>>, t: nat, a: Activity)
    requires t < |traces|
    ensures FirstIndexSum(traces[..t + 1], a) == FirstIndexSum(traces[..t], a) + FirstIndex(traces[t], a)
  {
    assert traces[..t + 1][..t] == traces[..t];
  }

  /** An activity occurs in the log exactly when it occurs in one of its traces. */
  lemma {:induction false} InFlatten(traces: seq<seq<Activity>>, a: Activity)
    ensures a in Flatten(traces) <==> exists t :: 0 <= t < |traces| && a in traces[t]
  {
    if traces != [] {
      var n := |traces| - 1;
      InFlatten(traces[..n], a);
      if a in traces[n] {
        assert a in Flatten(traces);
      } else if a in Flatten(traces) {
        var t :| 0 <= t < n && a in traces[..n][t];
        assert a in traces[t];
      } else {
        forall t | 0 <= t < |traces| ensures a !in traces[t] {
          if t < n {
            assert traces[..n][t] == traces[t];
          }
        }
      }
    }
  }

  lemma {:induction false} CountAppend(xs: seq<Activity>, ys: seq<Activity>, acts: set<Activity>)
    ensures Count(xs + ys, acts) == Count(xs, acts) + Count(ys, acts)
  {
    if ys != [] {
      var n := |ys| - 1;
      assert (xs + ys)[..|xs + ys| - 1] == xs + ys[..n];
      CountAppend(xs, ys[..n], acts);
    } else {
      assert xs + ys == xs;
    }
  }

  lemma CountSnoc(events: seq<Activity>, k: nat, acts: set<Activity>)
    requires k < |events|
    ensures Count(events[..k + 1], acts) == Count(events[..k], acts) + (if events[k] in acts then 1 else 0)
  {
    assert events[..k + 1][..k] == events[..k];
  }

  /** A count over a prefix never exceeds the count over the whole sequence. */
  lemma {:induction false} CountPrefix(events: seq<Activity>, k: nat, acts: set<Activity>)
    requires k <= |events|
    ensures Count(events[..k], acts) <= Count(events, acts)
  {
    assert events == events[..k] + events[k..];
    CountAppend(events[..k], events[k..], acts);
  }

  /** Counting a larger set of activities never yields fewer events. */
  lemma {:induction false} CountMonotone(events: seq<Activity>, small: set<Activity>, large: set<Activity>)
    requires small <= large
    ensures Count(events, small) <= Count(events, large)
  {
    if events != [] {
      CountMonotone(events[..|events| - 1], small, large);
    }
  }

  lemma {:induction false} CountNothing(events: seq<Activity>)
    ensures Count(events, {}) == 0
  {
    if events != [] {
      CountNothing(events[..|events| - 1]);
    }
  }

  /** Counts of disjoint activity sets add up. */
  lemma {:induction false} CountDisjointUnion(events: seq<Activity>, s: set<Activity>, u: set<Activity>)
    requires s !! u
    ensures Count(events, s + u) == Count(events, s) + Count(events, u)
  {
    if events != [] {
      CountDisjointUnion(events[..|events| - 1], s, u);
    }
  }

  /** When every event's activity is in `acts`, every event is counted. */
  lemma {:induction false} CountEverything(events: seq<Activity>, acts: set<Activity>)
    requires forall k :: 0 <= k < |events| ==> events[k] in acts
    ensures Count(events, acts) == |events|
  {
    if events != [] {
      CountEverything(events[..|events| - 1], acts);
    }
  }

  /** A trace frequency counts traces, so it never exceeds the number of traces. */
  lemma {:induction false} TraceFrequencyAtMostTraces(traces: seq<seq<Activity>>, a: Activity)
    ensures TraceFrequency(traces, a) <= |traces|
  {
    if traces != [] {
      TraceFrequencyAtMostTraces(traces[..|traces| - 1], a);
    }
  }

  /** An activity occurring in the log occurs in at least one trace. */
  lemma {:induction false} TraceFrequencyPositive(traces: seq<seq<Activity>>, a: Activity)
    ensures TraceFrequency(traces, a) >= 1 <==> a in Flatten(traces)
  {
    if traces != [] {
      var n := |traces| - 1;
      TraceFrequencyPositive(traces[..n], a);
      assert a in Flatten(traces) <==> a in Flatten(traces[..n]) || a in traces[n];
    }
  }

  /** Each trace that contains `a` holds at least one event labelled `a`. */
  lemma {:induction false} TraceFrequencyAtMostActivityFrequency(traces: seq<seq<Activity>>, a: Activity)
    ensures TraceFrequency(traces, a) <= Count(Flatten(traces), {a})
  {
    if traces != [] {
      var n := |traces| - 1;
      TraceFrequencyAtMostActivityFrequency(traces[..n], a);
      CountAppend(Flatten(traces[..n]), traces[n], {a});
      if a in traces[n] {
        var k :| 0 <= k < |traces[n]| && traces[n][k] == a;
        CountSnoc(traces[n], k, {a});
        CountPrefix(traces[n], k + 1, {a});
      }
    }
  }

  /** The first-occurrence index lies in 1..|trace| exactly when `a` occurs, and is 0 otherwise. */
  lemma {:induction false} FirstIndexRange(trace: seq<Activity>, a: Activity)
    ensures a in trace ==> 1 <= FirstIndex(trace, a) <= |trace| && trace[FirstIndex(trace, a) - 1] == a
    ensures a !in trace ==> FirstIndex(trace, a) == 0
  {
    if trace != [] && trace[0] != a {
      FirstIndexRange(trace[1..], a);
      assert a in trace <==> a in trace[1..] by {
        assert trace == [trace[0]] + trace[1..];
      }
    }
  }

  /** When `a` is absent from the first `k` events and present at position k, its first index is k + 1. */
  lemma {:induction false} FirstIndexAt(trace: seq<Activity>, a: Activity, k: nat)
    requires k < |trace| && trace[k] == a && a !in trace[..k]
    ensures FirstIndex(trace, a) == k + 1
  {
    if k > 0 {
      assert trace[0] == trace[..k][0];
      assert trace[1..][..k - 1] == trace[..k][1..];
      assert trace[1..][k - 1] == a;
      FirstIndexAt(trace[1..], a, k - 1);
    }
  }

  /** Every trace containing `a` contributes at least 1 to the first-index sum, so the
      average first-occurrence index of an occurring activity is at least 1. */
  lemma {:induction false} FirstIndexSumAtLeastTraceFrequency(traces: seq<seq<Activity>>, a: Activity)
    ensures FirstIndexSum(traces, a) >= TraceFrequency(traces, a)
  {
    if traces != [] {
      FirstIndexSumAtLeastTraceFrequency(traces[..|traces| - 1], a);
      FirstIndexRange(traces[|traces| - 1], a);
    }
  }

  /** The sum of `Count(events, {a})` over the activities `acts`. */
  function FrequencySum(events: seq<Activity>, acts: seq<Activity>): nat
  {
    if acts == [] then 0 else FrequencySum(events, acts[..|acts| - 1]) + Count(events, {acts[|acts| - 1]})
  }

  /** Summing single-activity counts over distinct activities counts the events of all of them. */
  lemma {:induction false} FrequencySumIsCount(events: seq<Activity>, acts: seq<Activity>)
    requires forall i, j :: 0 <= i < j < |acts| ==> acts[i] != acts[j]
    ensures FrequencySum(events, acts) == Count(events, set a | a in acts)
  {
    if acts == [] {
      CountNothing(events);
      assert (set a | a in acts) == {};
    } else {
      var n := |acts| - 1;
      FrequencySumIsCount(events, acts[..n]);
      assert (set a | a in acts) == (set a | a in acts[..n]) + {acts[n]};
      CountDisjointUnion(events, set a | a in acts[..n], {acts[n]});
    }
  }

  /** The absolute activity frequencies of a log's distinct activities sum to its number of events. */
  lemma ActivityFrequenciesSumToEventCount(traces: seq<seq<Activity>>, acts: seq<Activity>)
    requires forall i, j :: 0 <= i < j < |acts| ==> acts[i] != acts[j]
    requires forall a :: a in acts <==> a in Flatten(traces)
    ensures FrequencySum(Flatten(traces), acts) == |Flatten(traces)|
  {
    FrequencySumIsCount(Flatten(traces), acts);
    CountEverything(Flatten(traces), set a | a in acts);
  }
}
