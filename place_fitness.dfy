/**
 * Token replay of a candidate place against an event log.  The place counts
 * tokens while the events of the log are scanned, trace after trace, with a
 * single counter for the whole log: an event of an output activity consumes a
 * token, the count is then checked for being negative, and an event of an
 * input activity produces a token.  The result is a set drawn from FITTING,
 * OVERFED and UNDERFED.
 */
module PlaceFitness {
  import opened EventLog

  /** A candidate place: the activities that produce into it and those that consume from it. */
  datatype Place = Place(inputActivities: set<Activity>, outputActivities: set<Activity>)

  datatype Fitness = FITTING | OVERFED | UNDERFED

  datatype FitnessState = FitnessState(fitnessProperties: set<Fitness>)

  /** The token count after replaying `events` on an empty place: tokens produced minus tokens consumed. */
  function Tokens(events: seq<Activity>, place: Place): int
  {
    Count(events, place.inputActivities) - Count(events, place.outputActivities)
  }

  /** The token count tested at event k: event k has consumed, but not yet produced. */
  function TokensAtCheck(events: seq<Activity>, place: Place, k: nat): int
    requires k < |events|
  {
    Count(events[..k], place.inputActivities) - Count(events[..k + 1], place.outputActivities)
  }

  /** Some event finds the place short of a token. */
  ghost predicate Underfed(events: seq<Activity>, place: Place)
  {
    exists k :: 0 <= k < |events| && TokensAtCheck(events, place, k) < 0
  }

  /** Replays the place over the whole log with one token counter (never reset between traces). */
  method PlaceFitnessState(place: Place, log: seq<seq<Event>>, activityKey: string := DefaultNameKey) returns (state: FitnessState)
    requires Keyed(log, activityKey)
    ensures UNDERFED in state.fitnessProperties <==> Underfed(AllEvents(log, activityKey), place)
    ensures OVERFED in state.fitnessProperties <==> Tokens(AllEvents(log, activityKey), place) > 0
    ensures FITTING in state.fitnessProperties <==>
              Tokens(AllEvents(log, activityKey), place) == 0 && !Underfed(AllEvents(log, activityKey), place)
    ensures state.fitnessProperties != {}
    ensures FITTING in state.fitnessProperties ==> state.fitnessProperties == {FITTING}
  {
    ghost var traces := Labels(log, activityKey);
    var tokens := 0;
    var fitnessProperties: set<Fitness> := {};
    for t := 0 to |log|
      invariant tokens == Tokens(Flatten(traces[..t]), place)
      invariant fitnessProperties <= {UNDERFED}
      invariant UNDERFED in fitnessProperties <==> Underfed(Flatten(traces[..t]), place)
    {
      tokens, fitnessProperties := ReplayTrace(place, log, activityKey, t, tokens, fitnessProperties);
    }
    assert traces[..|log|] == traces;
    if tokens < 0 {
      NegativeTokensMeanUnderfed(Flatten(traces), place);
    }
    if tokens > 0 {
      fitnessProperties := fitnessProperties + {OVERFED};
    } else if tokens == 0 && UNDERFED !in fitnessProperties {
      fitnessProperties := fitnessProperties + {FITTING};
    }
    state := FitnessState(fitnessProperties);
  }

  /** The inner loop of `PlaceFitnessState`: replays trace `t`, continuing from the counter and
      properties left by the traces before it. */
  method ReplayTrace(place: Place, log: seq<seq<Event>>, activityKey: string, t: nat, tokens: int, fitnessProperties: set<Fitness>)
    returns (tokensAfter: int, propertiesAfter: set<Fitness>)
    requires Keyed(log, activityKey) && t < |log|
    requires tokens == Tokens(Flatten(Labels(log, activityKey)[..t]), place)
    requires fitnessProperties <= {UNDERFED}
    requires UNDERFED in fitnessProperties <==> Underfed(Flatten(Labels(log, activityKey)[..t]), place)
    ensures tokensAfter == Tokens(Flatten(Labels(log, activityKey)[..t + 1]), place)
    ensures propertiesAfter <= {UNDERFED}
    ensures UNDERFED in propertiesAfter <==> Underfed(Flatten(Labels(log, activityKey)[..t + 1]), place)
  {
    ghost var traces := Labels(log, activityKey);
    ghost var seen := Flatten(traces[..t]);
    ghost var prefix := seen;
    tokensAfter, propertiesAfter := tokens, fitnessProperties;
    for e := 0 to |log[t]|
      invariant seen == prefix + traces[t][..e]
      invariant tokensAfter == Tokens(seen, place)
      invariant propertiesAfter <= {UNDERFED}
      invariant UNDERFED in propertiesAfter <==> Underfed(seen, place)
    {
      var activity := log[t][e][activityKey];
      ReplayStep(seen, activity, place);
      assert traces[t][..e + 1] == traces[t][..e] + [activity];
      seen := seen + [activity];
      if activity in place.outputActivities {
        tokensAfter := tokensAfter - 1;
      }
      if tokensAfter < 0 {
        propertiesAfter := propertiesAfter + {UNDERFED};
      }
      if activity in place.inputActivities {
        tokensAfter := tokensAfter + 1;
      }
    }
    FlattenPrefix(traces, t);
    assert traces[t][..|traces[t]|] == traces[t];
  }

  /** One replay step: consume, check, produce. */
  lemma ReplayStep(seen: seq<Activity>, activity: Activity, place: Place)
    ensures TokensAtCheck(seen + [activity], place, |seen|) ==
              Tokens(seen, place) - (if activity in place.outputActivities then 1 else 0)
    ensures Tokens(seen + [activity], place) == Tokens(seen, place)
              - (if activity in place.outputActivities then 1 else 0)
              + (if activity in place.inputActivities then 1 else 0)
    ensures Underfed(seen + [activity], place) <==>
              Underfed(seen, place) || TokensAtCheck(seen + [activity], place, |seen|) < 0
  {
    var events := seen + [activity];
    assert events[..|seen|] == seen;
    assert events[..|seen| + 1] == events;
    forall k | 0 <= k < |seen| ensures TokensAtCheck(events, place, k) == TokensAtCheck(seen, place, k) {
      assert events[..k] == seen[..k];
      assert events[..k + 1] == seen[..k + 1];
    }
    if Underfed(events, place) && !Underfed(seen, place) {
      var k :| 0 <= k < |events| && TokensAtCheck(events, place, k) < 0;
      assert k == |seen|;
    }
  }

  /** A negative final count means some event already found the place short: the last event's
      check sees at most the final count. */
  lemma NegativeTokensMeanUnderfed(events: seq<Activity>, place: Place)
    requires Tokens(events, place) < 0
    ensures Underfed(events, place)
  {
    var k := |events| - 1;
    assert events[..k + 1] == events;
    CountPrefix(events, k, place.inputActivities);
    assert TokensAtCheck(events, place, k) < 0;
  }

  /** The token count at every step only grows with more input activities and fewer output activities. */
  lemma TokensMonotone(events: seq<Activity>, p: Place, q: Place)
    requires p.inputActivities <= q.inputActivities && q.outputActivities <= p.outputActivities
    ensures Tokens(events, p) <= Tokens(events, q)
    ensures forall k :: 0 <= k < |events| ==> TokensAtCheck(events, p, k) <= TokensAtCheck(events, q, k)
  {
    CountMonotone(events, p.inputActivities, q.inputActivities);
    CountMonotone(events, q.outputActivities, p.outputActivities);
    forall k | 0 <= k < |events| ensures TokensAtCheck(events, p, k) <= TokensAtCheck(events, q, k) {
      CountMonotone(events[..k], p.inputActivities, q.inputActivities);
      CountMonotone(events[..k + 1], q.outputActivities, p.outputActivities);
    }
  }

  /** Pruning rule: adding output activities keeps an underfed place underfed. */
  lemma MoreOutputsKeepUnderfed(events: seq<Activity>, inputs: set<Activity>, outputs: set<Activity>, moreOutputs: set<Activity>)
    requires outputs <= moreOutputs
    requires Underfed(events, Place(inputs, outputs))
    ensures Underfed(events, Place(inputs, moreOutputs))
  {
    TokensMonotone(events, Place(inputs, moreOutputs), Place(inputs, outputs));
    var k :| 0 <= k < |events| && TokensAtCheck(events, Place(inputs, outputs), k) < 0;
    assert TokensAtCheck(events, Place(inputs, moreOutputs), k) < 0;
  }

  /** Pruning rule: adding input activities keeps an overfed place overfed. */
  lemma MoreInputsKeepOverfed(events: seq<Activity>, inputs: set<Activity>, moreInputs: set<Activity>, outputs: set<Activity>)
    requires inputs <= moreInputs
    requires Tokens(events, Place(inputs, outputs)) > 0
    ensures Tokens(events, Place(moreInputs, outputs)) > 0
  {
    TokensMonotone(events, Place(inputs, outputs), Place(moreInputs, outputs));
  }

  /** The other two directions do not hold: adding an output activity can end overfeeding,
      and adding an input activity can end underfeeding. */
  lemma OtherDirectionsDoNotPrune()
    ensures Tokens(["a"], Place({"a"}, {})) > 0 && !(Tokens(["a"], Place({"a"}, {"a"})) > 0)
    ensures Underfed(["b", "a"], Place({}, {"a"})) && !Underfed(["b", "a"], Place({"b"}, {"a"}))
  {
    var events := ["b", "a"];
    assert events[..1] == ["b"] && events[..2] == events && events[..0] == [];
    assert TokensAtCheck(events, Place({}, {"a"}), 1) < 0;
    assert ["a"][..0] == [];
  }

  /** A place without input and output activities fits every log. */
  lemma EmptyPlaceFits(events: seq<Activity>)
    ensures Tokens(events, Place({}, {})) == 0
    ensures !Underfed(events, Place({}, {}))
  {
    CountNothing(events);
    forall k | 0 <= k < |events| ensures TokensAtCheck(events, Place({}, {}), k) == 0 {
      CountNothing(events[..k]);
      CountNothing(events[..k + 1]);
    }
  }

  /** On the trace a, b, c the place {a} -> {c} fits. */
  lemma FittingExample()
    ensures Tokens(["a", "b", "c"], Place({"a"}, {"c"})) == 0 && !Underfed(["a", "b", "c"], Place({"a"}, {"c"}))
  {
    var events := ["a", "b", "c"];
    assert events[..0] == [] && events[..1] == ["a"] && events[..2] == ["a", "b"] && events[..3] == events;
    assert ["a", "b"][..1] == ["a"] && ["a"][..0] == [];
    assert Count(events, {"a"}) == 1 && Count(events, {"c"}) == 1;
    forall k | 0 <= k < 3 ensures TokensAtCheck(events, Place({"a"}, {"c"}), k) >= 0 {
      if k == 2 {
        assert TokensAtCheck(events, Place({"a"}, {"c"}), 2) == 1 - 1;
      }
    }
  }

  /** On the trace a, b, c the places {a, b} -> {c} and {a, c} -> {d} keep tokens but are never short. */
  lemma OverfedExamples()
    ensures Tokens(["a", "b", "c"], Place({"a", "b"}, {"c"})) == 1 && !Underfed(["a", "b", "c"], Place({"a", "b"}, {"c"}))
    ensures Tokens(["a", "b", "c"], Place({"a", "c"}, {"d"})) > 0 && !Underfed(["a", "b", "c"], Place({"a", "c"}, {"d"}))
  {
    var events := ["a", "b", "c"];
    assert events[..0] == [] && events[..1] == ["a"] && events[..2] == ["a", "b"] && events[..3] == events;
    assert ["a", "b"][..1] == ["a"] && ["a"][..0] == [];
    assert Count(["a"], {"a", "b"}) == 1 && Count(["a", "b"], {"a", "b"}) == 2;
    assert Count(events, {"a", "b"}) == 2 && Count(events, {"c"}) == 1;
    forall k | 0 <= k < 3 ensures TokensAtCheck(events, Place({"a", "b"}, {"c"}), k) >= 0 {
      if k == 2 {
        assert TokensAtCheck(events, Place({"a", "b"}, {"c"}), 2) == 2 - 1;
      }
    }
  }

  /** On the trace a, b, c the place {d} -> {c} is short of a token at c. */
  lemma UnderfedExample()
    ensures Tokens(["a", "b", "c"], Place({"d"}, {"c"})) < 0 && Underfed(["a", "b", "c"], Place({"d"}, {"c"}))
  {
    var events := ["a", "b", "c"];
    assert events[..2] == ["a", "b"] && events[..3] == events;
    assert ["a", "b"][..1] == ["a"] && ["a"][..0] == [];
    assert TokensAtCheck(events, Place({"d"}, {"c"}), 2) < 0;
  }

  /** OVERFED and UNDERFED can be reported together. */
  lemma OverfedAndUnderfedTogether()
    ensures Underfed(["a", "b", "b"], Place({"b"}, {"a"})) && Tokens(["a", "b", "b"], Place({"b"}, {"a"})) > 0
  {
    var events := ["a", "b", "b"];
    assert events[..0] == [] && events[..1] == ["a"] && events[..2] == ["a", "b"] && events[..3] == events;
    assert ["a", "b"][..1] == ["a"] && ["a"][..0] == [];
    assert TokensAtCheck(events, Place({"b"}, {"a"}), 0) < 0;
  }

  /** The counter runs across trace boundaries: the traces [a] and [c] each leave the place
      {a} -> {c} unbalanced on their own, but the log of both fits. */
  lemma CounterCarriesAcrossTraces()
    ensures Flatten([["a"], ["c"]]) == ["a", "c"]
    ensures Tokens(["a"], Place({"a"}, {"c"})) > 0
    ensures Underfed(["c"], Place({"a"}, {"c"}))
    ensures Tokens(["a", "c"], Place({"a"}, {"c"})) == 0 && !Underfed(["a", "c"], Place({"a"}, {"c"}))
  {
    var traces := [["a"], ["c"]];
    assert traces[..1] == [["a"]] && traces[..1][..0] == [];
    var events := ["a", "c"];
    assert events[..0] == [] && events[..1] == ["a"] && events[..2] == events;
    assert ["a"][..0] == [] && ["c"][..0] == [] && ["c"][..1] == ["c"];
    assert TokensAtCheck(["c"], Place({"a"}, {"c"}), 0) < 0;
  }
}
