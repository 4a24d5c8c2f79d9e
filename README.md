# Route validator: stall detection and outcome classification

This project models the engine of a route validator that drives a traffic simulation.
The validator injects one probe vehicle per route, named `"veh_" + route`. It then
advances the simulation step by step, for at most `max_steps` steps (1000 by default),
and keeps going only while some probe is still tracked. In each step it works through
a snapshot of the tracked vehicle ids:

- a probe missing from the simulator's active set has arrived, so its route is a
  success and the probe is forgotten;
- a present probe gets one speed sample: below 0.1 its consecutive-stall counter goes
  up by one, otherwise the counter is reset to 0;
- a probe whose counter reaches `stall_threshold` (50 by default) is removed, and its
  route gets the error "Vehicle <id> stalled for <threshold> consecutive steps.".

When the loop ends, every route whose probe is still tracked gets the error "Vehicle
did not complete the route within the simulation time.".

The model has four modules:

- `Vehicles` (vehicles.dfy): route and vehicle ids, the per-vehicle record, and the
  tracking table. The table is an insertion-ordered dictionary: a key sequence plus a
  map.
- `Stall` (stall.dfy): the counter rule and the two error messages.
- `Simulation` (simulation.dfy): a value-level description of a run. It covers one
  visit (`Visit`), one pass over a snapshot (`Pass`, `Step`), the bounded loop
  (`Loop`, `Simulate`) and the timeout pass (`TimeoutErrors`). The lemmas about the
  run are here too.
- `RouteValidation` (validator.dfy): the validator as a class. Its fields `order` and
  `vehicleInfo` are updated in place by its methods, which mirror the Python functions
  and loops. The methods of the run (`VisitVehicle`, `SampleVehicle`, `RunStep`,
  `RunSimulation`) are proved to compute exactly the matching `Simulation` function.
  `RegisterRoutes` is proved to compute exactly `Registered`, the registration loop as a
  value. `Validate` is proved to compute `Simulate` on that registered table with the
  default budget and threshold, followed by the timeout pass.

The simulator is a parameter. `env(k)` is what it reports after step `k`: the set of
active vehicle ids and each vehicle's speed. `accepts(j)` says whether the `j`-th
injection succeeded.

The timeout pass (routeValidation.py, lines 80-81) only records the timeout error.
It does not delete the timed-out vehicles, so they stay in the table after the run.
The model does the same: `RunSimulation` leaves them in `vehicleInfo`.

## Model

| member | source | states |
|---|---|---|
| Vehicles.VehicleIdFor | routeValidation.py:94 | the probe id is "veh_" followed by the route id, which can be read back from position 4 on |
| Vehicles.VehicleIdInjective | routeValidation.py:94 | two routes get the same probe id exactly when they are the same route |
| Vehicles.Without | routeValidation.py:76 | deleting a key removes exactly that key from the insertion order and keeps the remaining keys distinct |
| Vehicles.WithoutAbsent | routeValidation.py:76 | deleting a key that is not tracked leaves the insertion order unchanged |
| Vehicles.WithoutAt | routeValidation.py:76 | in a distinct insertion order, deleting the key at position k gives the keys before k followed by the keys after k, so every other key keeps its relative place |
| Vehicles.RegisterRoute | routeValidation.py:93-95 | registering route r under id "veh_"+r with counter 0 keeps every record keyed by its own route, and adds exactly r to the live routes |
| Stall.IsSlow | routeValidation.py:61 | no contract of its own: the test `speed < 0.1`; NextStallCount, CountIsTrailingSlowRun and StallTripsIff use it |
| Stall.NextStallCount | routeValidation.py:61-64 | no contract of its own: the counter rule (one more when the sample is below 0.1, otherwise 0); its meaning is stated by CountIsTrailingSlowRun and StallTripsIff |
| Stall.CountIsTrailingSlowRun | routeValidation.py:61-64 | after any sequence of samples, the counter is the length of the final run of slow samples: the last `count` samples are below 0.1, and the one before them, if any, is not |
| Stall.StallTripsIff | routeValidation.py:61-67 | the counter reaches the threshold exactly when the last `threshold` samples were all below 0.1 (both directions) |
| Stall.IntToString | routeValidation.py:69 | no contract of its own: the decimal rendering of the threshold inside the stall error, with a leading '-' for a negative value; StallMessage uses it |
| Stall.StallMessage | routeValidation.py:69 | no contract of its own: the stall error text, with the threshold written in decimal; StallMessageIsNotTimeout states how it relates to the timeout error |
| Stall.TimeoutMessage | routeValidation.py:81 | a constant, no contract: the timeout error text |
| Stall.StallMessageIsNotTimeout | routeValidation.py:69 | a stall error never equals the timeout error, whatever the vehicle id and threshold |
| Simulation.Visit | routeValidation.py:58-76 | visiting one vehicle keeps the table well formed and leaves every other record alone; the route is appended to the successes exactly when the vehicle is absent; errors change only at that vehicle's route |
| Simulation.Pass | routeValidation.py:57-76 | a pass over a snapshot keeps the table well formed, leaves the records of vehicles outside the snapshot alone, and only extends the successes |
| Simulation.Step | routeValidation.py:57-76 | its contract is only that the table stays well formed; one step is a pass over a snapshot of the keys taken when the step starts, and PassEffect, PassRecord, StepBoundsCounts state what it does |
| Simulation.PassEffect | routeValidation.py:57-76 | each vehicle of the snapshot is visited exactly once even when others are deleted mid-pass: absent means deleted with its route among the successes; present means one sample, with deletion and the stall message once the counter reaches the threshold, otherwise a record holding the new count |
| Simulation.PassSuccesses | routeValidation.py:72-76 | a pass appends to the successes exactly the routes of the snapshot's absent vehicles, in snapshot order |
| Simulation.PassErrors | routeValidation.py:66-71 | a pass changes the errors only at the routes of the snapshot's vehicles |
| Simulation.PassRecord | routeValidation.py:57-76 | for any table, with routes shared or not: after a pass a vehicle of the snapshot is still tracked exactly when it was present and its new counter stays below the threshold, and its record then holds that counter |
| Simulation.StepBoundsCounts | routeValidation.py:62-71 | after a step, every record left has a counter below the threshold, and no vehicle was added |
| Simulation.Loop | routeValidation.py:52-77 | its contract is only that the table stays well formed; the loop runs steps while the budget lasts and some vehicle is tracked, and LoopSteps, LoopCounts, LoopShrinks, LoopTracksCount and LoopConsistent state what it does |
| Simulation.Simulate | routeValidation.py:48-77 | its contract is only that the table stays well formed; a run starts at step 0 with no errors and no successes, and RunPartition states its outcome |
| Simulation.TimeoutErrors | routeValidation.py:80-81 | the errors after the timeout pass hold the earlier errors and every route still tracked; a route still tracked carries the timeout error, and every other error is kept |
| Simulation.LoopSteps | routeValidation.py:52-77 | the loop ends at a step no earlier than where it started and, once started inside the budget, no later than `max_steps`; ending before `max_steps` means the table is empty |
| Simulation.LoopCounts | routeValidation.py:52-77 | once at least one step has run, every vehicle still tracked at the end has a counter below the threshold |
| Simulation.LoopShrinks | routeValidation.py:52-77 | the loop never adds a vehicle to the table |
| Simulation.LoopTracksCount | routeValidation.py:52-77 | a vehicle still tracked when the loop ends was present at every step the loop ran, and its counter is `CountAfter` of the samples it started with followed by its speed at each of those steps; a probe injected with counter 0 thus ends with `CountAfter` of its own samples, which links the run to CountIsTrailingSlowRun and StallTripsIff |
| Simulation.LoopConsistent | routeValidation.py:52-77 | the loop keeps the routes split into disjoint groups (still tracked, succeeded once, errored) whose union is the starting set of routes, with no timeout error yet |
| Simulation.FinalPartition | routeValidation.py:80-81 | the timeout pass turns a consistent final state into a partition of the routes, and the timeout error marks exactly the routes still tracked |
| Simulation.RunPartition | routeValidation.py:57-81 | for a whole run where no two probes share a route: every starting route ends up either among the successes, listed once, or among the errors, never both; the timeout error marks exactly the routes whose probe is still tracked |
| Simulation.LoopStallErrors | routeValidation.py:52-77 | in a table keyed by route, the loop keeps every recorded error equal to the stall error of the probe of its route |
| Simulation.RunStallErrors | routeValidation.py:66-81 | for a table keyed by route, after the run every error on a route no longer tracked is "Vehicle veh_<route> stalled for <threshold> consecutive steps." |
| Simulation.ImmediateArrival | routeValidation.py:72-76 | a lone probe already gone after the first step ends as a success with nothing else recorded |
| Simulation.SlowProbeStalls | routeValidation.py:61-71 | a lone probe that is present and slow at each step until its counter reaches the threshold is removed, with the stall error for its route, at exactly that step |
| Simulation.SlowProbeStallsAt | routeValidation.py:61-71 | the same as SlowProbeStalls, with "slow at each step until it trips" stated as a quantifier over the steps |
| Simulation.FastProbeTimesOut | routeValidation.py:52-81 | a lone probe that is present and never slow keeps counter 0, is still tracked when the budget runs out, and its route gets the timeout error |
| RouteValidation.Inject | routeValidation.py:36-37 | one accepted injection: the table stays well formed, the old insertion order stays a prefix, and the records gain exactly `{route, 0}` under "veh_"+route (an id already tracked keeps its position, a new one goes last) |
| RouteValidation.Registered | routeValidation.py:93-95 | the registration loop as a value: the table stays well formed and the old insertion order stays a prefix of the new one |
| RouteValidation.RegisteredKeys | routeValidation.py:93-95 | registration tracks exactly the vehicles tracked before plus the probe "veh_"+r of each accepted route r |
| RouteValidation.RegisteredFresh | routeValidation.py:37 | after registration the probe of every accepted route holds that route with counter 0 |
| RouteValidation.RegisteredKeeps | routeValidation.py:93-95 | registration leaves the record of every vehicle that no accepted route names as it was, counter included |
| RouteValidation.RegisteredKeyed | routeValidation.py:93-95 | a table keyed by route stays keyed, and its live routes grow by exactly the accepted routes |
| RouteValidation.Validator.constructor | routeValidation.py:28 | the table starts empty |
| RouteValidation.Validator.AddVehicleForRoute | routeValidation.py:30-40 | an accepted injection stores `{route, 0}` under the vehicle id, appending the id to the insertion order only when it is new; a rejected injection changes nothing |
| RouteValidation.Validator.VisitVehicle | routeValidation.py:58-76 | one iteration of the inner loop computes exactly `Visit` on the table and the two result collections |
| RouteValidation.Validator.SampleVehicle | routeValidation.py:59-71 | the present-vehicle branch computes exactly `Visit` for a present vehicle |
| RouteValidation.Validator.RunStep | routeValidation.py:56-76 | the inner loop over the key snapshot computes exactly `Step` |
| RouteValidation.Validator.TimeoutPass | routeValidation.py:80-81 | the final pass adds the timeout error for exactly the routes still tracked, keeping the other errors |
| RouteValidation.Validator.RunSimulation | routeValidation.py:42-83 | the run computes exactly `Simulate` followed by the timeout pass; the table only shrinks; for route-distinct tables the results partition the starting routes, and the timeout error marks exactly the routes still tracked; for tables keyed by route every other error is the stall error of the route's probe |
| RouteValidation.Validator.RegisterRoutes | routeValidation.py:93-95 | the loop over the routes leaves exactly the table `Registered` describes, insertion order included; a table keyed by route stays keyed and gains exactly the accepted routes |
| RouteValidation.Validator.Validate | routeValidation.py:85-98 | with no routes it stops and changes nothing; otherwise its outcome is `Simulate` on the registered table with 1000 steps and threshold 50, followed by the timeout pass, and the table is left as that run leaves it; every route already tracked or accepted ends with exactly one outcome, and every error other than a timeout is the stall error of the route's probe |

## Left out

- The simulator connection (add, step, list, speed query, remove, start, close) is not modelled. The per-step environment `env` and the per-attempt flag `accepts` stand in for it.
- Reading route ids from the XML routes file is not modelled. The routes are an input sequence.
- Printing the per-vehicle messages and the final report is not modelled, because it is output only.
- Aborts from the simulator during a run are not modelled: the step, vehicle-list and speed calls (lines 53, 54 and 60) are assumed to answer. In the program an exception there leaves `run_simulation`, the handler at lines 124-125 catches it, and no report is printed.
- Exception handling around session start and shutdown is not modelled. A failing remove call in the stall branch is not modelled either: removal is assumed to succeed.
- Speeds are exact reals. Floating-point rounding does not matter because the only use of a speed is the comparison with 0.1.
- RunSimulation: the partition and the timeout characterisation are stated only when no two tracked vehicles share a route. With a shared route, the Python error dictionary keeps one entry per route and the partition does not hold.
- Validate: the partition is stated only when the table starts out keyed by route, as it is when it starts empty. For other starting tables only the exact outcome is stated.
- The error routes are a map, which does not keep the insertion order of the Python dictionary. Only the printed report (line 103) depends on that order, and printing is not modelled.
- LoopCounts: the counter bound is stated only when at least one step ran. Records in an untouched starting table can hold any counter.
- ImmediateArrival, SlowProbeStalls, FastProbeTimesOut: these end-to-end scenarios are stated for a single probe. Runs with many probes are covered by PassEffect and RunPartition, not by scenario lemmas.
