/**
 The route validator itself: the table of tracked probe vehicles as an object whose
 methods change it in place, the registration of one probe per route, the bounded
 simulation loop with its stall detection and classification, and the driver that
 derives vehicle ids from route ids.

 The simulator is replaced by parameters: whether each injection is accepted
 (`accepts`, by attempt number) and what the simulator reports after each step
 (`env`, by step number).
 */
module RouteValidation {
  import opened Vehicles
  import opened Stall
  import opened Simulation

  /** The step budget and the stall threshold the driver runs the simulation with. */
  const DefaultMaxSteps: int := 1000
  const DefaultStallThreshold: int := 50

  /** What the driver produces: nothing when there are no routes, otherwise the two result tables. */
  datatype Outcome = NoRoutes | Checked(errors: map<RouteId, string>, successes: seq<RouteId>)

  /** The routes among the first `n` whose injection the simulator accepted. */
  ghost function AcceptedRoutes(routes: seq<RouteId>, accepts: nat -> bool, n: nat): set<RouteId>
    requires n <= |routes|
  {
    set j: nat | j < n && accepts(j) :: routes[j]
  }

  lemma AcceptedRoutesNext(routes: seq<RouteId>, accepts: nat -> bool, n: nat)
    requires n < |routes|
    ensures AcceptedRoutes(routes, accepts, n + 1)
         == AcceptedRoutes(routes, accepts, n) + (if accepts(n) then {routes[n]} else {})
  {
  }

  /** The tracking table as a value: the insertion order of the ids and their records. */
  datatype Table = Table(keys: seq<VehId>, records: map<VehId, Record>)

  /** The vehicle ids of the routes among the first `n` whose injection was accepted. */
  ghost function AcceptedIds(routes: seq<RouteId>, accepts: nat -> bool, n: nat): set<VehId>
    requires n <= |routes|
  {
    set j: nat | j < n && accepts(j) :: VehicleIdFor(routes[j])
  }

  /**
   The table after an accepted injection of route `route`: it stores `{route, 0}` under
   "veh_" + route, and the id joins the end of the insertion order unless it is already tracked.
   */
  function Inject(p: Table, route: RouteId): (r: Table)
    requires TableOk(p.keys, p.records)
    ensures TableOk(r.keys, r.records)
    ensures p.keys <= r.keys
    ensures r.records == p.records[VehicleIdFor(route) := Record(route, 0)]
  {
    var v := VehicleIdFor(route);
    if v in p.records then Table(p.keys, p.records[v := Record(route, 0)])
    else
      DistinctAppend(p.keys, v);
      Table(p.keys + [v], p.records[v := Record(route, 0)])
  }

  /** An injection keeps a table keyed by route and adds exactly its route to the live routes. */
  lemma InjectKeyed(p: Table, route: RouteId)
    requires TableOk(p.keys, p.records) && Keyed(p.records)
    ensures Keyed(Inject(p, route).records)
    ensures RoutesOf(Inject(p, route).records) == RoutesOf(p.records) + {route}
  {
    RegisterRoute(p.records, route);
  }

  /** The table after the driver's registration loop has tried the first `n` routes. */
  function Registered(t: Table, routes: seq<RouteId>, accepts: nat -> bool, n: nat): (r: Table)
    requires TableOk(t.keys, t.records) && n <= |routes|
    ensures TableOk(r.keys, r.records)
    ensures t.keys <= r.keys
    decreases n
  {
    if n == 0 then t
    else if accepts(n - 1) then Inject(Registered(t, routes, accepts, n - 1), routes[n - 1])
    else Registered(t, routes, accepts, n - 1)
  }

  lemma AcceptedIdsNext(routes: seq<RouteId>, accepts: nat -> bool, n: nat)
    requires n < |routes|
    ensures AcceptedIds(routes, accepts, n + 1)
         == AcceptedIds(routes, accepts, n) + (if accepts(n) then {VehicleIdFor(routes[n])} else {})
  {
  }

  /** Registration tracks exactly the vehicles tracked before and the accepted routes' probes. */
  lemma {:induction false} RegisteredKeys(t: Table, routes: seq<RouteId>, accepts: nat -> bool, n: nat)
    requires TableOk(t.keys, t.records) && n <= |routes|
    ensures Registered(t, routes, accepts, n).records.Keys == t.records.Keys + AcceptedIds(routes, accepts, n)
  {
    if n > 0 {
      RegisteredKeys(t, routes, accepts, n - 1);
      AcceptedIdsNext(routes, accepts, n - 1);
    }
  }

  /** After registration, the probe of every accepted route holds that route with counter 0. */
  lemma {:induction false} RegisteredFresh(t: Table, routes: seq<RouteId>, accepts: nat -> bool, n: nat)
    requires TableOk(t.keys, t.records) && n <= |routes|
    ensures var r := Registered(t, routes, accepts, n);
            forall j :: 0 <= j < n && accepts(j) ==>
              VehicleIdFor(routes[j]) in r.records && r.records[VehicleIdFor(routes[j])] == Record(routes[j], 0)
  {
    if n > 0 {
      RegisteredFresh(t, routes, accepts, n - 1);
      var r := Registered(t, routes, accepts, n);
      if accepts(n - 1) {
        forall j | 0 <= j < n && accepts(j)
          ensures VehicleIdFor(routes[j]) in r.records && r.records[VehicleIdFor(routes[j])] == Record(routes[j], 0)
        {
          VehicleIdInjective(routes[j], routes[n - 1]);
        }
      }
    }
  }

  /** Registration leaves the record of every vehicle that no accepted route names as it was. */
  lemma {:induction false} RegisteredKeeps(t: Table, routes: seq<RouteId>, accepts: nat -> bool, n: nat)
    requires TableOk(t.keys, t.records) && n <= |routes|
    ensures var r := Registered(t, routes, accepts, n);
            forall u :: u in t.records && u !in AcceptedIds(routes, accepts, n) ==> u in r.records && r.records[u] == t.records[u]
  {
    if n > 0 {
      RegisteredKeeps(t, routes, accepts, n - 1);
      AcceptedIdsNext(routes, accepts, n - 1);
    }
  }

  /** Registration keeps a table keyed by route. */
  lemma {:induction false} RegisteredStaysKeyed(t: Table, routes: seq<RouteId>, accepts: nat -> bool, n: nat)
    requires TableOk(t.keys, t.records) && Keyed(t.records) && n <= |routes|
    ensures Keyed(Registered(t, routes, accepts, n).records)
  {
    if n > 0 {
      RegisteredStaysKeyed(t, routes, accepts, n - 1);
      if accepts(n - 1) {
        InjectKeyed(Registered(t, routes, accepts, n - 1), routes[n - 1]);
      }
    }
  }

  /**
   A table keyed by route stays keyed through registration, and its live routes grow by
   exactly the accepted routes.
   */
  lemma {:induction false} RegisteredKeyed(t: Table, routes: seq<RouteId>, accepts: nat -> bool, n: nat)
    requires TableOk(t.keys, t.records) && Keyed(t.records) && n <= |routes|
    ensures Keyed(Registered(t, routes, accepts, n).records)
    ensures RoutesOf(Registered(t, routes, accepts, n).records) == RoutesOf(t.records) + AcceptedRoutes(routes, accepts, n)
  {
    RegisteredStaysKeyed(t, routes, accepts, n);
    if n > 0 {
      RegisteredKeyed(t, routes, accepts, n - 1);
      AcceptedRoutesNext(routes, accepts, n - 1);
      if accepts(n - 1) {
        InjectKeyed(Registered(t, routes, accepts, n - 1), routes[n - 1]);
      }
    }
  }

  class Validator {
    /** The tracked vehicles in insertion order, and their records (`vehicle_info`). */
    var order: seq<VehId>
    var vehicleInfo: map<VehId, Record>

    ghost predicate Valid()
      reads this
    {
      TableOk(order, vehicleInfo)
    }

    constructor ()
      ensures Valid() && order == [] && vehicleInfo == map[]
    {
      order := [];
      vehicleInfo := map[];
    }

    /**
     Registers the probe `vehId` for `routeId` with a zero counter when the simulator
     accepts its injection; a rejected injection leaves the table unchanged.
     */
    method AddVehicleForRoute(routeId: RouteId, vehId: VehId, accepted: bool)
      requires Valid()
      modifies this
      ensures Valid()
      ensures accepted ==> vehicleInfo == old(vehicleInfo)[vehId := Record(routeId, 0)]
      ensures accepted ==> order == if vehId in old(vehicleInfo) then old(order) else old(order) + [vehId]
      ensures !accepted ==> vehicleInfo == old(vehicleInfo) && order == old(order)
    {
      if accepted {
        if vehId !in vehicleInfo {
          order := order + [vehId];
        }
        vehicleInfo := vehicleInfo[vehId := Record(routeId, 0)];
      }
    }

    /** The final pass: every route whose vehicle is still tracked gets the timeout error. */
    method TimeoutPass(errors: map<RouteId, string>) returns (result: map<RouteId, string>)
      requires Valid()
      ensures result == TimeoutErrors(errors, vehicleInfo)
    {
      result := errors;
      ghost var seen: set<RouteId> := {};
      var i := 0;
      while i < |order|
        invariant 0 <= i <= |order|
        invariant seen == set j | 0 <= j < i :: vehicleInfo[order[j]].route
        invariant result == errors + map q | q in seen :: TimeoutMessage
      {
        var route := vehicleInfo[order[i]].route;
        TimeoutsGrow(errors, seen, route);
        result := result[route := TimeoutMessage];
        seen := seen + {route};
        i := i + 1;
      }
      assert seen == RoutesOf(vehicleInfo) by {
        forall q | q in RoutesOf(vehicleInfo)
          ensures q in seen
        {
          var v :| v in vehicleInfo && vehicleInfo[v].route == q;
          var j :| 0 <= j < |order| && order[j] == v;
        }
      }
    }

    static lemma TimeoutsGrow(errors: map<RouteId, string>, seen: set<RouteId>, route: RouteId)
      ensures (errors + map q | q in seen :: TimeoutMessage)[route := TimeoutMessage]
           == errors + map q | q in seen + {route} :: TimeoutMessage
    {
    }

    /**
     One iteration of the pass: an absent vehicle has arrived, so its route succeeds
     and it is deleted; a present one is sampled by `SampleVehicle`.
     */
    method VisitVehicle(v: VehId, obs: Observation, stallThreshold: int,
                        errorRoutes: map<RouteId, string>, successfulRoutes: seq<RouteId>)
      returns (errors': map<RouteId, string>, successes': seq<RouteId>)
      requires Valid() && v in vehicleInfo
      modifies this
      ensures Valid()
      ensures Sim(order, vehicleInfo, errors', successes')
           == Visit(old(Sim(order, vehicleInfo, errorRoutes, successfulRoutes)), v, obs, stallThreshold)
    {
      if v in obs.active {
        errors' := SampleVehicle(v, obs, stallThreshold, errorRoutes);
        successes' := successfulRoutes;
      } else {
        ghost var cur := Sim(order, vehicleInfo, errorRoutes, successfulRoutes);
        var route := vehicleInfo[v].route;
        errors' := errorRoutes;
        successes' := successfulRoutes + [route];
        vehicleInfo := vehicleInfo - {v};
        order := Without(order, v);
        assert Sim(order, vehicleInfo, errors', successes')
            == Sim(Without(cur.keys, v), cur.records - {v}, cur.errors, cur.successes + [route]);
      }
    }

    /**
     A present vehicle gets one speed sample: below 0.1 its counter goes up by one,
     otherwise it is reset; once the counter reaches `stallThreshold` the vehicle is
     deleted and its route gets the stall error.
     */
    method SampleVehicle(v: VehId, obs: Observation, stallThreshold: int, errorRoutes: map<RouteId, string>)
      returns (errors': map<RouteId, string>)
      requires Valid() && v in vehicleInfo && v in obs.active
      modifies this
      ensures Valid()
      ensures forall successes: seq<RouteId> ::
                Sim(order, vehicleInfo, errors', successes)
                == Visit(old(Sim(order, vehicleInfo, errorRoutes, successes)), v, obs, stallThreshold)
    {
      ghost var keys, records := order, vehicleInfo;
      ghost var rec := vehicleInfo[v];
      errors' := errorRoutes;
      var speed := obs.speed(v);
      if IsSlow(speed) {
        vehicleInfo := vehicleInfo[v := Record(vehicleInfo[v].route, vehicleInfo[v].stallCount + 1)];
      } else {
        vehicleInfo := vehicleInfo[v := Record(vehicleInfo[v].route, 0)];
      }
      ghost var count := NextStallCount(rec.stallCount, speed);
      assert vehicleInfo == records[v := Record(rec.route, count)];
      if vehicleInfo[v].stallCount >= stallThreshold {
        var route := vehicleInfo[v].route;
        errors' := errors'[route := StallMessage(v, stallThreshold)];
        vehicleInfo := vehicleInfo - {v};
        order := Without(order, v);
        assert vehicleInfo == records - {v};
      }
    }

    /** One step: a pass over a snapshot of the ids tracked when the step starts. */
    method RunStep(obs: Observation, stallThreshold: int,
                   errorRoutes: map<RouteId, string>, successfulRoutes: seq<RouteId>)
      returns (errors': map<RouteId, string>, successes': seq<RouteId>)
      requires Valid()
      modifies this
      ensures Valid()
      ensures Sim(order, vehicleInfo, errors', successes')
           == Step(old(Sim(order, vehicleInfo, errorRoutes, successfulRoutes)), obs, stallThreshold)
    {
      ghost var before := Sim(order, vehicleInfo, errorRoutes, successfulRoutes);
      errors', successes' := errorRoutes, successfulRoutes;
      var snapshot := order;
      var i := 0;
      while i < |snapshot|
        invariant 0 <= i <= |snapshot|
        invariant Valid()
        invariant Distinct(snapshot[i..]) && forall u :: u in snapshot[i..] ==> u in vehicleInfo
        invariant Pass(Sim(order, vehicleInfo, errors', successes'), snapshot[i..], obs, stallThreshold)
               == Pass(before, snapshot, obs, stallThreshold)
      {
        assert snapshot[i..][0] == snapshot[i] && snapshot[i..][1..] == snapshot[i + 1..];
        PassAdvance(Sim(order, vehicleInfo, errors', successes'), snapshot[i..], obs, stallThreshold);
        errors', successes' := VisitVehicle(snapshot[i], obs, stallThreshold, errors', successes');
        i := i + 1;
      }
      assert snapshot[i..] == [];
    }

    /**
     The step loop of one run, followed by the timeout pass. Vehicles still tracked at
     the end get the timeout error and stay in the table.
     */
    method RunSimulation(maxSteps: int, stallThreshold: int, env: nat -> Observation)
      returns (errorRoutes: map<RouteId, string>, successfulRoutes: seq<RouteId>)
      requires Valid()
      modifies this
      ensures Valid()
      ensures var f := Simulate(old(order), old(vehicleInfo), maxSteps, env, stallThreshold);
              order == f.keys && vehicleInfo == f.records && successfulRoutes == f.successes
              && errorRoutes == TimeoutErrors(f.errors, f.records)
      ensures vehicleInfo.Keys <= old(vehicleInfo).Keys
      ensures RoutesDistinct(old(vehicleInfo)) ==>
                Partitioned(RoutesOf(old(vehicleInfo)), errorRoutes, successfulRoutes)
      ensures RoutesDistinct(old(vehicleInfo)) ==>
                forall q :: q in errorRoutes ==> (errorRoutes[q] == TimeoutMessage <==> q in RoutesOf(vehicleInfo))
      ensures Keyed(old(vehicleInfo)) ==>
                forall q :: q in errorRoutes && q !in RoutesOf(vehicleInfo) ==>
                  errorRoutes[q] == StallMessage(VehicleIdFor(q), stallThreshold)
    {
      ghost var start := Sim(order, vehicleInfo, map[], []);
      var step := 0;
      errorRoutes := map[];
      successfulRoutes := [];
      while step < maxSteps && |vehicleInfo| > 0
        invariant Valid()
        invariant Loop(Sim(order, vehicleInfo, errorRoutes, successfulRoutes), step, maxSteps, env, stallThreshold)
               == Loop(start, 0, maxSteps, env, stallThreshold)
        decreases maxSteps - step
      {
        ghost var cur := Sim(order, vehicleInfo, errorRoutes, successfulRoutes);
        assert Loop(cur, step, maxSteps, env, stallThreshold)
            == Loop(Step(cur, env(step), stallThreshold), step + 1, maxSteps, env, stallThreshold);
        errorRoutes, successfulRoutes := RunStep(env(step), stallThreshold, errorRoutes, successfulRoutes);
        step := step + 1;
      }
      ghost var f := Sim(order, vehicleInfo, errorRoutes, successfulRoutes);
      assert Loop(f, step, maxSteps, env, stallThreshold) == (f, step);
      assert f == Simulate(old(order), old(vehicleInfo), maxSteps, env, stallThreshold);
      errorRoutes := TimeoutPass(errorRoutes);
      LoopShrinks(start, 0, maxSteps, env, stallThreshold);
      if RoutesDistinct(old(vehicleInfo)) {
        RunPartition(old(order), old(vehicleInfo), maxSteps, env, stallThreshold);
      }
      if Keyed(old(vehicleInfo)) {
        RunStallErrors(old(order), old(vehicleInfo), maxSteps, env, stallThreshold);
      }
    }

    /**
     Registers the probe "veh_" + r for each route r, in order: the table becomes
     `Registered` of the old one. When the table starts out keyed by route, it stays
     keyed, and the live routes grow by exactly the routes whose injection was accepted.
     */
    method RegisterRoutes(routes: seq<RouteId>, accepts: nat -> bool)
      requires Valid()
      modifies this
      ensures Valid()
      ensures Table(order, vehicleInfo) == Registered(Table(old(order), old(vehicleInfo)), routes, accepts, |routes|)
      ensures Keyed(old(vehicleInfo)) ==>
                Keyed(vehicleInfo) &&
                RoutesOf(vehicleInfo) == RoutesOf(old(vehicleInfo)) + AcceptedRoutes(routes, accepts, |routes|)
    {
      var i := 0;
      while i < |routes|
        invariant 0 <= i <= |routes|
        invariant Valid()
        invariant Table(order, vehicleInfo) == Registered(Table(old(order), old(vehicleInfo)), routes, accepts, i)
      {
        var route := routes[i];
        var vehId := VehicleIdFor(route);
        AddVehicleForRoute(route, vehId, accepts(i));
        i := i + 1;
      }
      if Keyed(old(vehicleInfo)) {
        RegisteredKeyed(Table(old(order), old(vehicleInfo)), routes, accepts, |routes|);
      }
    }

    /**
     The driver: with no routes it stops before anything else; otherwise it registers
     the probe of each route, then runs the simulation with the default budget and
     threshold: the outcome is the simulated run of the registered table followed by
     the timeout pass. When the table starts out keyed by route, every accepted route
     ends with exactly one outcome.
     */
    method Validate(routes: seq<RouteId>, accepts: nat -> bool, env: nat -> Observation)
      returns (outcome: Outcome)
      requires Valid()
      modifies this
      ensures Valid()
      ensures routes == [] ==> outcome == NoRoutes && order == old(order) && vehicleInfo == old(vehicleInfo)
      ensures routes != [] ==> outcome.Checked?
      ensures routes != [] ==>
                var t := Registered(Table(old(order), old(vehicleInfo)), routes, accepts, |routes|);
                var f := Simulate(t.keys, t.records, DefaultMaxSteps, env, DefaultStallThreshold);
                outcome == Checked(TimeoutErrors(f.errors, f.records), f.successes) &&
                order == f.keys && vehicleInfo == f.records
      ensures routes != [] && Keyed(old(vehicleInfo)) ==>
                Partitioned(RoutesOf(old(vehicleInfo)) + AcceptedRoutes(routes, accepts, |routes|),
                            outcome.errors, outcome.successes)
      ensures routes != [] && Keyed(old(vehicleInfo)) ==>
                forall q :: q in outcome.errors && q !in RoutesOf(vehicleInfo) ==>
                  outcome.errors[q] == StallMessage(VehicleIdFor(q), DefaultStallThreshold)
    {
      if |routes| == 0 {
        return NoRoutes;
      }
      RegisterRoutes(routes, accepts);
      if Keyed(old(vehicleInfo)) {
        KeyedRoutesDistinct(vehicleInfo);
      }
      var errorRoutes, successfulRoutes := RunSimulation(DefaultMaxSteps, DefaultStallThreshold, env);
      outcome := Checked(errorRoutes, successfulRoutes);
    }
  }
}
