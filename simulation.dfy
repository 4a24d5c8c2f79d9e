/**
 A value-level description of one run of the validator: what visiting one tracked
 vehicle does, what one pass over the snapshot of tracked ids does, what the bounded
 step loop does, and what the final timeout pass adds to the errors. The class in
 module RouteValidation is proved to compute exactly this; the lemmas here state
 what the run guarantees.

 The simulator is an environment: after step `k` it lists the ids of the vehicles
 still driving and answers speed queries (`Observation`).
 */
module Simulation {
  import opened Vehicles
  import opened Stall

  /** What the simulator reports after one step: the active vehicle ids, and each vehicle's speed. */
  datatype Observation = Observation(active: set<VehId>, speed: VehId -> real)

  /** The tracked-vehicle table together with the outcomes collected so far. */
  datatype Sim = Sim(keys: seq<VehId>, records: map<VehId, Record>,
                     errors: map<RouteId, string>, successes: seq<RouteId>)

  /** Visiting tracked vehicle `v` in one step. */
  function Visit(s: Sim, v: VehId, obs: Observation, threshold: int): (r: Sim)
    requires TableOk(s.keys, s.records) && v in s.records
    ensures TableOk(r.keys, r.records)
    ensures forall u :: u != v ==> (u in r.records <==> u in s.records)
    ensures forall u :: u != v && u in s.records ==> r.records[u] == s.records[u]
    ensures r.successes == s.successes + (if v in obs.active then [] else [s.records[v].route])
    ensures forall q :: q != s.records[v].route ==> (q in r.errors <==> q in s.errors)
    ensures forall q :: q != s.records[v].route && q in s.errors ==> r.errors[q] == s.errors[q]
  {
    var rec := s.records[v];
    if v in obs.active then
      var count := NextStallCount(rec.stallCount, obs.speed(v));
      if count >= threshold then
        Sim(Without(s.keys, v), s.records - {v}, s.errors[rec.route := StallMessage(v, threshold)], s.successes)
      else
        Sim(s.keys, s.records[v := Record(rec.route, count)], s.errors, s.successes)
    else
      Sim(Without(s.keys, v), s.records - {v}, s.errors, s.successes + [rec.route])
  }

  /** Visiting, in order, each vehicle of a snapshot of tracked ids taken at the start of a step. */
  function Pass(s: Sim, snapshot: seq<VehId>, obs: Observation, threshold: int): (r: Sim)
    requires TableOk(s.keys, s.records)
    requires Distinct(snapshot) && forall v :: v in snapshot ==> v in s.records
    ensures TableOk(r.keys, r.records)
    ensures forall u :: u !in snapshot ==> (u in r.records <==> u in s.records)
    ensures forall u :: u !in snapshot && u in s.records ==> r.records[u] == s.records[u]
    ensures s.successes <= r.successes
    decreases |snapshot|
  {
    if snapshot == [] then s
    else
      DistinctCons(snapshot);
      Pass(Visit(s, snapshot[0], obs, threshold), snapshot[1..], obs, threshold)
  }

  /** A pass is a visit of the snapshot's first vehicle followed by a pass over the rest of it. */
  lemma PassAdvance(s: Sim, snapshot: seq<VehId>, obs: Observation, threshold: int)
    requires TableOk(s.keys, s.records)
    requires Distinct(snapshot) && forall v :: v in snapshot ==> v in s.records
    requires snapshot != []
    ensures var s1 := Visit(s, snapshot[0], obs, threshold);
            && Distinct(snapshot[1..]) && (forall v :: v in snapshot[1..] ==> v in s1.records)
            && Pass(s, snapshot, obs, threshold) == Pass(s1, snapshot[1..], obs, threshold)
  {
    DistinctCons(snapshot);
  }

  /** One simulation step: a pass over all ids tracked when the step starts. */
  function Step(s: Sim, obs: Observation, threshold: int): (r: Sim)
    requires TableOk(s.keys, s.records)
    ensures TableOk(r.keys, r.records)
  {
    Pass(s, s.keys, obs, threshold)
  }

  /**
   The step loop from step `step` on: it runs while the budget is not used up and
   some vehicle is still tracked. Yields the final state and the final step number.
   */
  function Loop(s: Sim, step: nat, maxSteps: int, env: nat -> Observation, threshold: int): (r: (Sim, nat))
    requires TableOk(s.keys, s.records)
    ensures TableOk(r.0.keys, r.0.records)
    decreases maxSteps - step
  {
    if step < maxSteps && |s.records| > 0 then
      Loop(Step(s, env(step), threshold), step + 1, maxSteps, env, threshold)
    else
      (s, step)
  }

  /** The state when the step loop of a run over the given table ends. */
  function Simulate(keys: seq<VehId>, records: map<VehId, Record>, maxSteps: int,
                    env: nat -> Observation, threshold: int): (f: Sim)
    requires TableOk(keys, records)
    ensures TableOk(f.keys, f.records)
  {
    Loop(Sim(keys, records, map[], []), 0, maxSteps, env, threshold).0
  }

  /** The errors after the timeout pass: every route still tracked gets the timeout error. */
  ghost function TimeoutErrors(errors: map<RouteId, string>, records: map<VehId, Record>): (r: map<RouteId, string>)
    ensures r.Keys == errors.Keys + RoutesOf(records)
    ensures forall q :: q in RoutesOf(records) ==> r[q] == TimeoutMessage
    ensures forall q :: q in errors && q !in RoutesOf(records) ==> r[q] == errors[q]
  {
    errors + map q | q in RoutesOf(records) :: TimeoutMessage
  }

  // ---------------------------------------------------------------------------
  // What one visit and one pass do to each vehicle.

  /** The outcome of visiting vehicle `v`, whose record was `rec`, as seen in state `r`. */
  ghost predicate Visited(rec: Record, v: VehId, obs: Observation, threshold: int, r: Sim)
  {
    if v !in obs.active then
      v !in r.records && rec.route in r.successes
    else
      var count := NextStallCount(rec.stallCount, obs.speed(v));
      if count >= threshold then
        v !in r.records && rec.route in r.errors && r.errors[rec.route] == StallMessage(v, threshold)
      else
        v in r.records && r.records[v] == Record(rec.route, count)
  }

  /** The routes of the vehicles of a snapshot, as recorded in `info`. */
  ghost function SnapshotRoutes(snapshot: seq<VehId>, info: map<VehId, Record>): set<RouteId>
  {
    set v | v in snapshot && v in info :: info[v].route
  }

  /** The routes of the snapshot's vehicles that are absent from the active set, in snapshot order. */
  function Arrivals(snapshot: seq<VehId>, info: map<VehId, Record>, active: set<VehId>): seq<RouteId>
    requires forall v :: v in snapshot ==> v in info
  {
    if snapshot == [] then []
    else (if snapshot[0] in active then [] else [info[snapshot[0]].route]) + Arrivals(snapshot[1..], info, active)
  }

  lemma {:induction false} ArrivalsAgree(snapshot: seq<VehId>, a: map<VehId, Record>, b: map<VehId, Record>, active: set<VehId>)
    requires forall v :: v in snapshot ==> v in a && v in b && a[v] == b[v]
    ensures Arrivals(snapshot, a, active) == Arrivals(snapshot, b, active)
  {
    if snapshot != [] {
      ArrivalsAgree(snapshot[1..], a, b, active);
    }
  }

  /**
   A pass only appends to the successful routes, and what it appends is the routes of
   the snapshot's absent vehicles, in snapshot order.
   */
  lemma {:induction false} PassSuccesses(s: Sim, snapshot: seq<VehId>, obs: Observation, threshold: int)
    requires TableOk(s.keys, s.records)
    requires Distinct(snapshot) && forall v :: v in snapshot ==> v in s.records
    ensures Pass(s, snapshot, obs, threshold).successes == s.successes + Arrivals(snapshot, s.records, obs.active)
    decreases |snapshot|
  {
    if snapshot != [] {
      DistinctCons(snapshot);
      var v := snapshot[0];
      var s1 := Visit(s, v, obs, threshold);
      var head: seq<RouteId> := if v in obs.active then [] else [s.records[v].route];
      var tail := Arrivals(snapshot[1..], s.records, obs.active);
      assert Arrivals(snapshot, s.records, obs.active) == head + tail;
      assert Pass(s, snapshot, obs, threshold) == Pass(s1, snapshot[1..], obs, threshold);
      PassSuccesses(s1, snapshot[1..], obs, threshold);
      ArrivalsAgree(snapshot[1..], s1.records, s.records, obs.active);
      AppendAssoc(s.successes, head, tail);
    }
  }

  /** A pass changes the errors only at the routes of the snapshot's vehicles. */
  lemma {:induction false} PassErrors(s: Sim, snapshot: seq<VehId>, obs: Observation, threshold: int, q: RouteId)
    requires TableOk(s.keys, s.records)
    requires Distinct(snapshot) && forall v :: v in snapshot ==> v in s.records
    requires q !in SnapshotRoutes(snapshot, s.records)
    ensures q in Pass(s, snapshot, obs, threshold).errors <==> q in s.errors
    ensures q in s.errors ==> Pass(s, snapshot, obs, threshold).errors[q] == s.errors[q]
    decreases |snapshot|
  {
    if snapshot != [] {
      DistinctCons(snapshot);
      var v := snapshot[0];
      var s1 := Visit(s, v, obs, threshold);
      assert v in snapshot && v in s.records;
      assert q != s.records[v].route;
      assert q !in SnapshotRoutes(snapshot[1..], s1.records);
      PassErrors(s1, snapshot[1..], obs, threshold, q);
    }
  }

  /** Visiting one vehicle keeps the other records' routes distinct. */
  lemma VisitRoutesDistinct(s: Sim, v: VehId, obs: Observation, threshold: int)
    requires TableOk(s.keys, s.records) && RoutesDistinct(s.records) && v in s.records
    ensures RoutesDistinct(Visit(s, v, obs, threshold).records)
  {
    var rec := s.records[v];
    var s1 := Visit(s, v, obs, threshold);
    if v in s1.records {
      RoutesOfRecount(s.records, v, s1.records[v].stallCount);
      assert s1.records == s.records[v := Record(rec.route, s1.records[v].stallCount)];
    } else {
      RoutesOfRemove(s.records, v);
      assert s1.records == s.records - {v};
    }
  }

  /**
   Every vehicle of the snapshot is visited exactly once in a pass, even though some
   are deleted along the way: an absent vehicle is removed and its route succeeds; a
   present one has its counter advanced by exactly one sample, and is removed with a
   stall error for its route when the counter reaches the threshold.
   */
  lemma {:induction false} PassEffect(s: Sim, snapshot: seq<VehId>, obs: Observation, threshold: int, v: VehId)
    requires TableOk(s.keys, s.records) && RoutesDistinct(s.records)
    requires Distinct(snapshot) && forall u :: u in snapshot ==> u in s.records
    requires v in snapshot
    ensures Visited(s.records[v], v, obs, threshold, Pass(s, snapshot, obs, threshold))
    decreases |snapshot|
  {
    DistinctCons(snapshot);
    var s1 := Visit(s, snapshot[0], obs, threshold);
    VisitRoutesDistinct(s, snapshot[0], obs, threshold);
    if v == snapshot[0] {
      var rec := s.records[v];
      assert Visited(rec, v, obs, threshold, s1);
      PassSuccesses(s1, snapshot[1..], obs, threshold);
      assert rec.route !in SnapshotRoutes(snapshot[1..], s1.records);
      PassErrors(s1, snapshot[1..], obs, threshold, rec.route);
    } else {
      assert v in snapshot[1..];
      PassEffect(s1, snapshot[1..], obs, threshold, v);
    }
  }

  /** What visiting `v`, whose record was `rec`, leaves in the table of state `r`. */
  ghost predicate VisitedRecord(rec: Record, v: VehId, obs: Observation, threshold: int, r: Sim)
  {
    if v in obs.active && NextStallCount(rec.stallCount, obs.speed(v)) < threshold then
      v in r.records && r.records[v] == Record(rec.route, NextStallCount(rec.stallCount, obs.speed(v)))
    else
      v !in r.records
  }

  /**
   The table part of `PassEffect`, for any table: after a pass, a vehicle of the snapshot
   is still tracked exactly when it was present and its new counter stays below the
   threshold, and then its record holds that new counter.
   */
  lemma {:induction false} PassRecord(s: Sim, snapshot: seq<VehId>, obs: Observation, threshold: int, v: VehId)
    requires TableOk(s.keys, s.records)
    requires Distinct(snapshot) && forall u :: u in snapshot ==> u in s.records
    requires v in snapshot
    ensures VisitedRecord(s.records[v], v, obs, threshold, Pass(s, snapshot, obs, threshold))
    decreases |snapshot|
  {
    DistinctCons(snapshot);
    var s1 := Visit(s, snapshot[0], obs, threshold);
    if v == snapshot[0] {
      assert VisitedRecord(s.records[v], v, obs, threshold, s1);
      assert Pass(s, snapshot, obs, threshold) == Pass(s1, snapshot[1..], obs, threshold);
    } else {
      assert v in snapshot[1..];
      PassRecord(s1, snapshot[1..], obs, threshold, v);
    }
  }

  /**
   After a step every remaining record has a counter below the threshold, and no
   vehicle appears that was not tracked before.
   */
  lemma StepBoundsCounts(s: Sim, obs: Observation, threshold: int)
    requires TableOk(s.keys, s.records)
    ensures forall v :: v in Step(s, obs, threshold).records ==>
              v in s.records && Step(s, obs, threshold).records[v].stallCount < threshold
  {
    var r := Step(s, obs, threshold);
    forall v | v in r.records
      ensures v in s.records && r.records[v].stallCount < threshold
    {
      assert v in s.keys;
      PassRecord(s, s.keys, obs, threshold, v);
    }
  }

  // ---------------------------------------------------------------------------
  // The partition of the routes into successes and errors.

  /**
   The state keeps the routes it started with split into three disjoint groups:
   still tracked, succeeded (each once), and errored; and no error so far is a timeout.
   */
  ghost predicate Consistent(s: Sim, routes: set<RouteId>)
  {
    && TableOk(s.keys, s.records)
    && RoutesDistinct(s.records)
    && Distinct(s.successes)
    && RoutesOf(s.records) !! Elems(s.successes)
    && RoutesOf(s.records) !! s.errors.Keys
    && Elems(s.successes) !! s.errors.Keys
    && RoutesOf(s.records) + Elems(s.successes) + s.errors.Keys == routes
    && forall q :: q in s.errors ==> s.errors[q] != TimeoutMessage
  }

  /** Every route has exactly one outcome: succeeded (listed once) or errored. */
  ghost predicate Partitioned(routes: set<RouteId>, errors: map<RouteId, string>, successes: seq<RouteId>)
  {
    Distinct(successes) && Elems(successes) !! errors.Keys && Elems(successes) + errors.Keys == routes
  }

  lemma VisitConsistent(s: Sim, v: VehId, obs: Observation, threshold: int, routes: set<RouteId>)
    requires Consistent(s, routes) && v in s.records
    ensures Consistent(Visit(s, v, obs, threshold), routes)
  {
    var rec := s.records[v];
    assert rec.route in RoutesOf(s.records);
    if v in obs.active {
      var count := NextStallCount(rec.stallCount, obs.speed(v));
      if count >= threshold {
        RoutesOfRemove(s.records, v);
        StallMessageIsNotTimeout(v, threshold);
        StalledConsistent(s, v, StallMessage(v, threshold), routes);
      } else {
        RoutesOfRecount(s.records, v, count);
      }
    } else {
      RoutesOfRemove(s.records, v);
      DistinctAppend(s.successes, rec.route);
    }
  }

  /** Deleting a vehicle and recording an error other than the timeout error for its route keeps the state consistent. */
  lemma StalledConsistent(s: Sim, v: VehId, msg: string, routes: set<RouteId>)
    requires Consistent(s, routes) && v in s.records && msg != TimeoutMessage
    requires RoutesOf(s.records - {v}) == RoutesOf(s.records) - {s.records[v].route}
    requires RoutesDistinct(s.records - {v})
    ensures Consistent(Sim(Without(s.keys, v), s.records - {v}, s.errors[s.records[v].route := msg], s.successes), routes)
  {
    assert s.records[v].route in RoutesOf(s.records);
  }

  lemma {:induction false} PassConsistent(s: Sim, snapshot: seq<VehId>, obs: Observation, threshold: int, routes: set<RouteId>)
    requires Consistent(s, routes)
    requires Distinct(snapshot) && forall v :: v in snapshot ==> v in s.records
    ensures Consistent(Pass(s, snapshot, obs, threshold), routes)
    decreases |snapshot|
  {
    if snapshot != [] {
      DistinctCons(snapshot);
      VisitConsistent(s, snapshot[0], obs, threshold, routes);
      PassConsistent(Visit(s, snapshot[0], obs, threshold), snapshot[1..], obs, threshold, routes);
    }
  }

  lemma {:induction false} LoopConsistent(s: Sim, step: nat, maxSteps: int, env: nat -> Observation, threshold: int, routes: set<RouteId>)
    requires Consistent(s, routes)
    ensures Consistent(Loop(s, step, maxSteps, env, threshold).0, routes)
    decreases maxSteps - step
  {
    if step < maxSteps && |s.records| > 0 {
      PassConsistent(s, s.keys, env(step), threshold, routes);
      LoopConsistent(Step(s, env(step), threshold), step + 1, maxSteps, env, threshold, routes);
    }
  }

  /** The loop uses at most the step budget, and stops early only when nothing is tracked. */
  lemma {:induction false} LoopSteps(s: Sim, step: nat, maxSteps: int, env: nat -> Observation, threshold: int)
    requires TableOk(s.keys, s.records)
    ensures step <= Loop(s, step, maxSteps, env, threshold).1
    ensures Loop(s, step, maxSteps, env, threshold).1 <= maxSteps || Loop(s, step, maxSteps, env, threshold).1 == step
    ensures Loop(s, step, maxSteps, env, threshold).1 < maxSteps ==> Loop(s, step, maxSteps, env, threshold).0.records == map[]
    decreases maxSteps - step
  {
    if step < maxSteps && |s.records| > 0 {
      LoopSteps(Step(s, env(step), threshold), step + 1, maxSteps, env, threshold);
    }
  }

  /**
   Once the loop has run a step, every record left has a counter below the threshold,
   so a vehicle still tracked at the end was never stalled out.
   */
  lemma {:induction false} LoopCounts(s: Sim, step: nat, maxSteps: int, env: nat -> Observation, threshold: int)
    requires TableOk(s.keys, s.records)
    ensures var f := Loop(s, step, maxSteps, env, threshold).0;
            step < maxSteps && |s.records| > 0 ==>
              forall v :: v in f.records ==> f.records[v].stallCount < threshold
    decreases maxSteps - step
  {
    if step < maxSteps && |s.records| > 0 {
      var s1 := Step(s, env(step), threshold);
      StepBoundsCounts(s, env(step), threshold);
      assert Loop(s, step, maxSteps, env, threshold) == Loop(s1, step + 1, maxSteps, env, threshold);
      if step + 1 < maxSteps && |s1.records| > 0 {
        LoopCounts(s1, step + 1, maxSteps, env, threshold);
      } else {
        assert Loop(s1, step + 1, maxSteps, env, threshold).0 == s1;
      }
    }
  }

  /** The loop never adds a vehicle to the table. */
  lemma {:induction false} LoopShrinks(s: Sim, step: nat, maxSteps: int, env: nat -> Observation, threshold: int)
    requires TableOk(s.keys, s.records)
    ensures Loop(s, step, maxSteps, env, threshold).0.records.Keys <= s.records.Keys
    decreases maxSteps - step
  {
    if step < maxSteps && |s.records| > 0 {
      var s1 := Step(s, env(step), threshold);
      assert s1.records.Keys <= s.records.Keys;
      LoopShrinks(s1, step + 1, maxSteps, env, threshold);
    }
  }

  /** The speeds the simulator reports for vehicle `v` at steps `from` up to, not including, `to`. */
  ghost function SpeedSamples(v: VehId, env: nat -> Observation, from: nat, to: int): seq<real>
    decreases to - from
  {
    if from < to then [env(from).speed(v)] + SpeedSamples(v, env, from + 1, to) else []
  }

  /**
   Vehicle `v`, whose record was `rec` at step `step`, is either gone from state `f`
   reached at step `n`, or its record there holds `CountAfter` of the samples `past`
   followed by its speed at every step from `step` to `n`, at each of which it was present.
   */
  ghost predicate TracksCount(rec: Record, v: VehId, env: nat -> Observation, step: nat, past: seq<real>, f: Sim, n: nat)
  {
    v in f.records ==>
      f.records[v] == Record(rec.route, CountAfter(past + SpeedSamples(v, env, step, n))) &&
      forall k :: step <= k < n ==> v in env(k).active
  }

  /** One more sample at the front: a step taken at `step` by a present vehicle. */
  lemma TracksCountShift(rec: Record, v: VehId, env: nat -> Observation, step: nat, past: seq<real>, f: Sim, n: nat)
    requires step < n && v in env(step).active
    requires TracksCount(Record(rec.route, CountAfter(past + [env(step).speed(v)])), v, env, step + 1,
                         past + [env(step).speed(v)], f, n)
    ensures TracksCount(rec, v, env, step, past, f, n)
  {
    var x := env(step).speed(v);
    assert SpeedSamples(v, env, step, n) == [x] + SpeedSamples(v, env, step + 1, n);
    AppendAssoc(past, [x], SpeedSamples(v, env, step + 1, n));
  }

  /**
   The record of a vehicle still tracked when the loop ends holds the counter rule
   applied to every sample the loop took of it: if its counter at the start summed up
   the samples `past`, its final counter is `CountAfter` of `past` followed by its speed
   at each step the loop ran. It was present at each of those steps. With `past` empty,
   a probe injected with counter 0 thus ends with `CountAfter` of its own samples.
   */
  lemma {:induction false} LoopTracksCount(s: Sim, step: nat, maxSteps: int, env: nat -> Observation, threshold: int,
                                           v: VehId, past: seq<real>)
    requires TableOk(s.keys, s.records) && v in s.records && s.records[v].stallCount == CountAfter(past)
    ensures var f := Loop(s, step, maxSteps, env, threshold);
            TracksCount(s.records[v], v, env, step, past, f.0, f.1)
    decreases maxSteps - step
  {
    var f := Loop(s, step, maxSteps, env, threshold);
    if step < maxSteps && |s.records| > 0 {
      var s1 := Step(s, env(step), threshold);
      assert f == Loop(s1, step + 1, maxSteps, env, threshold);
      LoopShrinks(s1, step + 1, maxSteps, env, threshold);
      if v in s1.records {
        assert v in s.keys;
        PassRecord(s, s.keys, env(step), threshold, v);
        var x := env(step).speed(v);
        assert (past + [x])[..|past|] == past;
        LoopTracksCount(s1, step + 1, maxSteps, env, threshold, v, past + [x]);
        LoopSteps(s1, step + 1, maxSteps, env, threshold);
        TracksCountShift(s.records[v], v, env, step, past, f.0, f.1);
      }
    } else {
      assert past + SpeedSamples(v, env, step, f.1) == past;
    }
  }

  /** The timeout pass completes the partition of a consistent final state. */
  lemma FinalPartition(f: Sim, routes: set<RouteId>)
    requires Consistent(f, routes)
    ensures Partitioned(routes, TimeoutErrors(f.errors, f.records), f.successes)
    ensures var errors := TimeoutErrors(f.errors, f.records);
            forall q :: q in errors ==> (errors[q] == TimeoutMessage <==> q in RoutesOf(f.records))
  {
    var errors := TimeoutErrors(f.errors, f.records);
    assert errors.Keys == f.errors.Keys + RoutesOf(f.records);
  }

  /**
   The partition of a whole run: when no two tracked vehicles share a route, every
   route tracked at the start ends up either in the successful routes, exactly once,
   or in the errors, and not both. The routes with the timeout error are exactly
   those whose vehicle is still tracked when the loop ends.
   */
  lemma RunPartition(keys: seq<VehId>, records: map<VehId, Record>, maxSteps: int,
                     env: nat -> Observation, threshold: int)
    requires TableOk(keys, records) && RoutesDistinct(records)
    ensures var f := Simulate(keys, records, maxSteps, env, threshold);
            Partitioned(RoutesOf(records), TimeoutErrors(f.errors, f.records), f.successes)
    ensures var f := Simulate(keys, records, maxSteps, env, threshold);
            var errors := TimeoutErrors(f.errors, f.records);
            forall q :: q in errors ==> (errors[q] == TimeoutMessage <==> q in RoutesOf(f.records))
  {
    var s0 := Sim(keys, records, map[], []);
    assert Elems(s0.successes) == {};
    assert Consistent(s0, RoutesOf(records));
    LoopConsistent(s0, 0, maxSteps, env, threshold, RoutesOf(records));
    FinalPartition(Simulate(keys, records, maxSteps, env, threshold), RoutesOf(records));
  }

  // ---------------------------------------------------------------------------
  // What the errors that are not timeouts hold.

  /**
   In a table keyed by route, every error recorded so far is the stall error of the
   probe of its route.
   */
  ghost predicate StallErrors(s: Sim, threshold: int)
  {
    Keyed(s.records) && forall q :: q in s.errors ==> s.errors[q] == StallMessage(VehicleIdFor(q), threshold)
  }

  lemma VisitStallErrors(s: Sim, v: VehId, obs: Observation, threshold: int)
    requires TableOk(s.keys, s.records) && v in s.records && StallErrors(s, threshold)
    ensures StallErrors(Visit(s, v, obs, threshold), threshold)
  {
    var rec := s.records[v];
    var r := Visit(s, v, obs, threshold);
    assert v == VehicleIdFor(rec.route);
    if v in r.records {
      assert r.records[v].route == rec.route;
    }
  }

  lemma {:induction false} PassStallErrors(s: Sim, snapshot: seq<VehId>, obs: Observation, threshold: int)
    requires TableOk(s.keys, s.records) && StallErrors(s, threshold)
    requires Distinct(snapshot) && forall v :: v in snapshot ==> v in s.records
    ensures StallErrors(Pass(s, snapshot, obs, threshold), threshold)
    decreases |snapshot|
  {
    if snapshot != [] {
      DistinctCons(snapshot);
      VisitStallErrors(s, snapshot[0], obs, threshold);
      PassStallErrors(Visit(s, snapshot[0], obs, threshold), snapshot[1..], obs, threshold);
    }
  }

  lemma {:induction false} LoopStallErrors(s: Sim, step: nat, maxSteps: int, env: nat -> Observation, threshold: int)
    requires TableOk(s.keys, s.records) && StallErrors(s, threshold)
    ensures StallErrors(Loop(s, step, maxSteps, env, threshold).0, threshold)
    decreases maxSteps - step
  {
    if step < maxSteps && |s.records| > 0 {
      PassStallErrors(s, s.keys, env(step), threshold);
      LoopStallErrors(Step(s, env(step), threshold), step + 1, maxSteps, env, threshold);
    }
  }

  /**
   For a table keyed by route, at the end of a run every error that is not on a route
   still tracked is the stall error of that route's probe: "Vehicle veh_<route> stalled
   for <threshold> consecutive steps.".
   */
  lemma RunStallErrors(keys: seq<VehId>, records: map<VehId, Record>, maxSteps: int,
                       env: nat -> Observation, threshold: int)
    requires TableOk(keys, records) && Keyed(records)
    ensures var f := Simulate(keys, records, maxSteps, env, threshold);
            var errors := TimeoutErrors(f.errors, f.records);
            forall q :: q in errors && q !in RoutesOf(f.records) ==> errors[q] == StallMessage(VehicleIdFor(q), threshold)
  {
    LoopStallErrors(Sim(keys, records, map[], []), 0, maxSteps, env, threshold);
  }

  // ---------------------------------------------------------------------------
  // Runs with a single probe vehicle.

  /** The state in which only vehicle `v`, probing `route`, is tracked, and nothing is classified yet. */
  function Single(v: VehId, route: RouteId, count: nat): (s: Sim)
    ensures TableOk(s.keys, s.records)
  {
    Sim([v], map[v := Record(route, count)], map[], [])
  }

  lemma LoopUnfold(s: Sim, step: nat, maxSteps: int, env: nat -> Observation, threshold: int)
    requires TableOk(s.keys, s.records) && step < maxSteps && |s.records| > 0
    ensures Loop(s, step, maxSteps, env, threshold) == Loop(Step(s, env(step), threshold), step + 1, maxSteps, env, threshold)
  {
  }

  /** A run that takes one more step to reach `s1` ends where the run from `s1` ends. */
  lemma LoopThrough(s: Sim, s1: Sim, step: nat, maxSteps: int, env: nat -> Observation, threshold: int,
                    final: (Sim, nat))
    requires TableOk(s.keys, s.records) && step < maxSteps && |s.records| > 0
    requires Step(s, env(step), threshold) == s1
    requires Loop(s1, step + 1, maxSteps, env, threshold) == final
    ensures Loop(s, step, maxSteps, env, threshold) == final
  {
  }

  lemma LoopDone(s: Sim, step: nat, maxSteps: int, env: nat -> Observation, threshold: int)
    requires TableOk(s.keys, s.records) && s.records == map[]
    ensures Loop(s, step, maxSteps, env, threshold) == (s, step)
  {
  }

  /** With one tracked vehicle, a step is one visit of it. */
  lemma StepSingle(v: VehId, route: RouteId, count: nat, obs: Observation, threshold: int)
    ensures Step(Single(v, route, count), obs, threshold) == Visit(Single(v, route, count), v, obs, threshold)
  {
    var s := Single(v, route, count);
    assert s.keys[0] == v && s.keys[1..] == [];
    assert Pass(s, s.keys, obs, threshold) == Pass(Visit(s, v, obs, threshold), [], obs, threshold);
  }

  /** A probe that is gone from the active set after the first step is a success, and nothing else. */
  lemma ImmediateArrival(v: VehId, route: RouteId, maxSteps: int, env: nat -> Observation, threshold: int)
    requires 1 <= maxSteps && v !in env(0).active
    ensures Simulate([v], map[v := Record(route, 0)], maxSteps, env, threshold) == Sim([], map[], map[], [route])
  {
    var s1 := Step(Single(v, route, 0), env(0), threshold);
    StepSingle(v, route, 0, env(0), threshold);
    assert Without([v], v) == [];
    assert s1 == Sim([], map[], map[], [route]);
    assert Loop(Single(v, route, 0), 0, maxSteps, env, threshold) == Loop(s1, 1, maxSteps, env, threshold);
    assert Loop(s1, 1, maxSteps, env, threshold) == (s1, 1);
  }

  /** One step of a lone probe sampled slow: its counter goes up by one, or it stalls out. */
  lemma SlowStep(v: VehId, route: RouteId, count: nat, obs: Observation, threshold: int)
    requires v in obs.active && IsSlow(obs.speed(v))
    ensures Step(Single(v, route, count), obs, threshold)
         == if count + 1 < threshold then Single(v, route, count + 1)
            else Sim([], map[], map[route := StallMessage(v, threshold)], [])
  {
    StepSingle(v, route, count, obs, threshold);
    assert Without([v], v) == [];
  }

  /** One step of a lone probe sampled fast: its counter is reset and it stays tracked. */
  lemma FastStep(v: VehId, route: RouteId, count: nat, obs: Observation, threshold: int)
    requires v in obs.active && !IsSlow(obs.speed(v)) && 1 <= threshold
    ensures Step(Single(v, route, count), obs, threshold) == Single(v, route, 0)
  {
    StepSingle(v, route, count, obs, threshold);
  }

  /** Vehicle `v` is in the active set and sampled slow after every step from `from` up to `to`. */
  ghost predicate SlowFrom(v: VehId, env: nat -> Observation, from: nat, to: int)
    decreases to - from
  {
    from < to ==> v in env(from).active && IsSlow(env(from).speed(v)) && SlowFrom(v, env, from + 1, to)
  }

  /** `SlowFrom` says exactly that every step in the range is present and slow. */
  lemma {:induction false} SlowFromAll(v: VehId, env: nat -> Observation, from: nat, to: int)
    ensures SlowFrom(v, env, from, to)
        <==> (forall k: nat :: from <= k < to ==> v in env(k).active && IsSlow(env(k).speed(v)))
    decreases if from < to then to - from else 0
  {
    if from < to {
      SlowFromAll(v, env, from + 1, to);
    }
  }

  /**
   A probe that stays in the active set and is slow at every step, starting from
   counter `count` below the threshold, is removed with the stall error for its route
   at exactly the step where its counter reaches the threshold, if the budget allows.
   */
  lemma {:induction false} SlowProbeStalls(v: VehId, route: RouteId, count: nat, step: nat, maxSteps: int,
                          env: nat -> Observation, threshold: int, stop: nat)
    requires count < threshold && stop == step + threshold - count && stop <= maxSteps
    requires SlowFrom(v, env, step, stop)
    ensures Loop(Single(v, route, count), step, maxSteps, env, threshold)
         == (Sim([], map[], map[route := StallMessage(v, threshold)], []), stop)
    decreases threshold - count
  {
    var stalled := Sim([], map[], map[route := StallMessage(v, threshold)], []);
    if count + 1 < threshold {
      SlowProbeStalls(v, route, count + 1, step + 1, maxSteps, env, threshold, stop);
      SlowProbeStep(v, route, count, step, maxSteps, env, threshold, (stalled, stop));
    } else {
      SlowProbeTrips(v, route, count, step, maxSteps, env, threshold, stop);
    }
  }

  /** A slow sample below the threshold only raises the counter, and the run goes on from the next count. */
  /** `SlowProbeStalls` with the slow run stated as a quantifier over the steps. */
  lemma SlowProbeStallsAt(v: VehId, route: RouteId, count: nat, step: nat, maxSteps: int,
                          env: nat -> Observation, threshold: int, stop: nat)
    requires count < threshold && stop == step + threshold - count && stop <= maxSteps
    requires forall k: nat :: step <= k < stop ==> v in env(k).active && IsSlow(env(k).speed(v))
    ensures Loop(Single(v, route, count), step, maxSteps, env, threshold)
         == (Sim([], map[], map[route := StallMessage(v, threshold)], []), stop)
  {
    SlowFromAll(v, env, step, stop);
    SlowProbeStalls(v, route, count, step, maxSteps, env, threshold, stop);
  }

  lemma SlowProbeStep(v: VehId, route: RouteId, count: nat, step: nat, maxSteps: int,
                      env: nat -> Observation, threshold: int, final: (Sim, nat))
    requires step < maxSteps && v in env(step).active && IsSlow(env(step).speed(v)) && count + 1 < threshold
    requires Loop(Single(v, route, count + 1), step + 1, maxSteps, env, threshold) == final
    ensures Loop(Single(v, route, count), step, maxSteps, env, threshold) == final
  {
    SlowStep(v, route, count, env(step), threshold);
    LoopThrough(Single(v, route, count), Single(v, route, count + 1), step, maxSteps, env, threshold, final);
  }

  /** The slow sample that brings the counter to the threshold removes the probe with the stall error. */
  lemma SlowProbeTrips(v: VehId, route: RouteId, count: nat, step: nat, maxSteps: int,
                       env: nat -> Observation, threshold: int, stop: nat)
    requires step < maxSteps && v in env(step).active && IsSlow(env(step).speed(v)) && count + 1 >= threshold
    requires stop == step + 1
    ensures Loop(Single(v, route, count), step, maxSteps, env, threshold)
         == (Sim([], map[], map[route := StallMessage(v, threshold)], []), stop)
  {
    var stalled := Sim([], map[], map[route := StallMessage(v, threshold)], []);
    SlowStep(v, route, count, env(step), threshold);
    LoopDone(stalled, stop, maxSteps, env, threshold);
    LoopThrough(Single(v, route, count), stalled, step, maxSteps, env, threshold, (stalled, stop));
  }


  /**
   A probe that stays in the active set and is never slow keeps a zero counter and is
   still tracked when the step budget is used up, so it ends with the timeout error.
   */
  lemma {:induction false} FastProbeTimesOut(v: VehId, route: RouteId, step: nat, maxSteps: int,
                            env: nat -> Observation, threshold: int)
    requires 1 <= threshold && step <= maxSteps
    requires forall k :: step <= k < maxSteps ==> v in env(k).active && !IsSlow(env(k).speed(v))
    ensures Loop(Single(v, route, 0), step, maxSteps, env, threshold) == (Single(v, route, 0), maxSteps)
    ensures TimeoutErrors(map[], map[v := Record(route, 0)]) == map[route := TimeoutMessage]
    decreases maxSteps - step
  {
    var s := Single(v, route, 0);
    if step < maxSteps {
      assert |s.records| == 1;
      FastStep(v, route, 0, env(step), threshold);
      LoopUnfold(s, step, maxSteps, env, threshold);
      FastProbeTimesOut(v, route, step + 1, maxSteps, env, threshold);
    }
    var records := map[v := Record(route, 0)];
    assert records[v].route == route;
    assert RoutesOf(records) == {route};
  }
}
