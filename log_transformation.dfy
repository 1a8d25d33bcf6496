/**
 * Log preprocessing for the eST-miner: every trace is given an artificial
 * start event in front and an artificial end event at the back, so that each
 * trace of the log begins and ends with the same unique activities.  Traces
 * are objects whose event lists are changed in place.
 */
module LogTransformation {
  import opened EventLog

  /** A trace of the log: a list of events that preprocessing extends in place. */
  class Trace {
    var events: seq<Event>

    constructor (events: seq<Event>)
      ensures this.events == events
    {
      this.events := events;
    }
  }

  /** The event that carries only the activity `activity` under `activityKey`. */
  function ActivityEvent(activityKey: string, activity: Activity): (event: Event)
    ensures activityKey in event && event[activityKey] == activity
    ensures event.Keys == {activityKey}
  {
    map[activityKey := activity]
  }

  /** `events` with the start event put in front and the end event added at the back: the trace
      grows by exactly two, and an empty trace becomes [start, end]. */
  function Framed(events: seq<Event>, startActivity: Activity, endActivity: Activity, activityKey: string): (framed: seq<Event>)
    ensures |framed| == |events| + 2
    ensures framed[0] == ActivityEvent(activityKey, startActivity)
    ensures framed[|framed| - 1] == ActivityEvent(activityKey, endActivity)
    ensures events == [] ==> framed == [map[activityKey := startActivity], map[activityKey := endActivity]]
  {
    [ActivityEvent(activityKey, startActivity)] + events + [ActivityEvent(activityKey, endActivity)]
  }

  /** `events` framed `n` times over. */
  function FramedTimes(events: seq<Event>, startActivity: Activity, endActivity: Activity, activityKey: string, n: nat): seq<Event>
  {
    if n == 0 then events
    else Framed(FramedTimes(events, startActivity, endActivity, activityKey, n - 1), startActivity, endActivity, activityKey)
  }

  /** The number of times `trace` occurs in `log`. */
  function Occurrences(log: seq<Trace>, trace: Trace): nat
  {
    multiset(log)[trace]
  }

  /** Adds a start and an end event to every trace of the log, in place, and returns the log.
      A trace object that occurs several times in the log is framed once per occurrence. */
  method AddUniqueStartAndEndActivity(log: seq<Trace>, startActivity: Activity := "[start>", endActivity: Activity := "[end]",
                                      activityKey: string := DefaultNameKey) returns (result: seq<Trace>)
    modifies set t | t in log
    ensures result == log
    ensures forall k :: 0 <= k < |log| ==>
              log[k].events == FramedTimes(old(log[k].events), startActivity, endActivity, activityKey, Occurrences(log, log[k]))
  {
    for i := 0 to |log|
      invariant forall k :: 0 <= k < |log| ==>
                  log[k].events == FramedTimes(old(log[k].events), startActivity, endActivity, activityKey, Occurrences(log[..i], log[k]))
    {
      var trace := log[i];
      ghost var before := trace.events;
      trace.events := [ActivityEvent(activityKey, startActivity)] + trace.events;
      trace.events := trace.events + [ActivityEvent(activityKey, endActivity)];
      assert trace.events == Framed(before, startActivity, endActivity, activityKey);
      assert log[..i + 1] == log[..i] + [trace];
      forall k | 0 <= k < |log|
        ensures log[k].events == FramedTimes(old(log[k].events), startActivity, endActivity, activityKey, Occurrences(log[..i + 1], log[k]))
      {
        if log[k] == trace {
          assert Occurrences(log[..i + 1], log[k]) == Occurrences(log[..i], log[k]) + 1;
        } else {
          assert Occurrences(log[..i + 1], log[k]) == Occurrences(log[..i], log[k]);
        }
      }
    }
    assert log[..|log|] == log;
    result := log;
  }

  /** A log whose traces are distinct objects has every trace framed exactly once. */
  lemma DistinctTracesAreFramedOnce(log: seq<Trace>, trace: Trace)
    requires forall i, j :: 0 <= i < j < |log| ==> log[i] != log[j]
    requires trace in log
    ensures Occurrences(log, trace) == 1
  {
    var i :| 0 <= i < |log| && log[i] == trace;
    var before, after := log[..i], log[i + 1..];
    assert log == before + [trace] + after;
    assert trace !in before && trace !in after by {
      forall k | 0 <= k < |before| ensures before[k] != trace { assert before[k] == log[k]; }
      forall k | 0 <= k < |after| ensures after[k] != trace { assert after[k] == log[i + 1 + k]; }
    }
  }

  /** Preprocessing keeps the original events, unchanged and in order, at positions 1 to n. */
  lemma FramedKeepsEvents(events: seq<Event>, startActivity: Activity, endActivity: Activity, activityKey: string)
    ensures var framed := Framed(events, startActivity, endActivity, activityKey);
      forall k :: 0 <= k < |events| ==> framed[k + 1] == events[k]
  {
  }

  /** Preprocessing keeps every event keyed, and the activity labels of a preprocessed trace are
      the original labels between the start and the end activity. */
  lemma FramedLabels(events: seq<Event>, startActivity: Activity, endActivity: Activity, activityKey: string)
    requires Keyed([events], activityKey)
    ensures Keyed([Framed(events, startActivity, endActivity, activityKey)], activityKey)
    ensures Labels([Framed(events, startActivity, endActivity, activityKey)], activityKey)[0] ==
              [startActivity] + Labels([events], activityKey)[0] + [endActivity]
  {
    var framed := Framed(events, startActivity, endActivity, activityKey);
    forall e | 0 <= e < |framed| ensures activityKey in framed[e] {
      if 0 < e < |framed| - 1 {
        assert framed[e] == [events][0][e - 1];
      }
    }
    var labels := Labels([events], activityKey)[0];
    var expected := [startActivity] + labels + [endActivity];
    var actual := Labels([framed], activityKey)[0];
    assert |actual| == |expected|;
    forall e | 0 <= e < |actual| ensures actual[e] == expected[e] {
      if 0 < e < |framed| - 1 {
        assert framed[e] == events[e - 1];
      }
    }
  }

  /** Preprocessing is not idempotent: preprocessing twice puts two start events in front and
      two end events at the back, and the result differs from preprocessing once. */
  lemma {:induction false} NotIdempotent(events: seq<Event>, startActivity: Activity, endActivity: Activity, activityKey: string)
    ensures var once := FramedTimes(events, startActivity, endActivity, activityKey, 1);
      var twice := FramedTimes(events, startActivity, endActivity, activityKey, 2);
      && twice != once
      && twice[0][activityKey] == startActivity && twice[1][activityKey] == startActivity
      && twice[|twice| - 2][activityKey] == endActivity && twice[|twice| - 1][activityKey] == endActivity
  {
    var once := Framed(events, startActivity, endActivity, activityKey);
    assert FramedTimes(events, startActivity, endActivity, activityKey, 1) == once;
    var twice := Framed(once, startActivity, endActivity, activityKey);
    assert FramedTimes(events, startActivity, endActivity, activityKey, 2) == twice;
    assert |twice| == |once| + 2;
    assert twice[1] == once[0];
    assert twice[|twice| - 2] == once[|once| - 1];
  }
}
