/*
 * The evaluator (Individual.cpp: feasibilityCheckOfSolution,
 * solutionEvaluation). Every vehicle's schedule is timed from the depot: a
 * stop is reached after the previous stop's work and the leg to it, a truck
 * spending the loading time per bike moved and a repairman the repair time per
 * bike repaired. Every stop after a vehicle's first is then replayed, in order
 * of arrival, against the stations' initial stock; a stop that leaves a station
 * with a negative stock or more bikes than docks makes the solution infeasible
 * and adds what is out of bounds to the capacity excess. A feasible solution
 * is charged the dissatisfaction of the stock it leaves behind.
 *
 * The program stamps the arrival times into the shared schedule entries; here
 * the stamped schedules are returned.
 */
module Evaluation {
  import opened Instances
  import opened Schemes
  import opened Sorting
  import opened TimeAllotment
  import opened TruckAssignment
  import opened RepairAssignment
  import opened RepairAmendment
  import opened TruckAmendment

  // ---------------------------------------------------------------------
  // The clock of one vehicle
  // ---------------------------------------------------------------------

  /** The station a vehicle leaves for entry j: it sets out from the depot, whatever its first entry names. */
  function From(stations: seq<int>, j: int): int
    requires 1 <= j < |stations|
  {
    if j == 1 then 0 else stations[j - 1]
  }

  /**
   * The time a vehicle is done at entry j: the work of its first entry, then
   * per entry the leg to it and the work there.
   */
  function Clock(stations: seq<int>, work: seq<real>, leg: (int, int) -> real, j: int): real
    requires |work| == |stations| && 0 <= j < |stations|
  {
    if j == 0 then work[0]
    else Clock(stations, work, leg, j - 1) + leg(From(stations, j), stations[j]) + work[j]
  }

  /** The time a vehicle reaches entry j: 0 for its first entry. */
  function Arrival(stations: seq<int>, work: seq<real>, leg: (int, int) -> real, j: int): real
    requires |work| == |stations| && 0 <= j < |stations|
  {
    if j == 0 then 0.0 else Clock(stations, work, leg, j - 1) + leg(From(stations, j), stations[j])
  }

  /** The time spent on the legs up to entry j. */
  function Drive(stations: seq<int>, leg: (int, int) -> real, j: int): real
    requires 0 <= j < |stations|
  {
    if j == 0 then 0.0 else Drive(stations, leg, j - 1) + leg(From(stations, j), stations[j])
  }

  /** The time spent working up to entry j. */
  function Busy(work: seq<real>, j: int): real
    requires 0 <= j < |work|
  {
    if j == 0 then work[0] else Busy(work, j - 1) + work[j]
  }

  /** A vehicle's clock is its driving time plus its working time. */
  lemma {:induction false} ClockSplits(stations: seq<int>, work: seq<real>, leg: (int, int) -> real, j: int)
    requires |work| == |stations| && 0 <= j < |stations|
    ensures Clock(stations, work, leg, j) == Drive(stations, leg, j) + Busy(work, j)
  {
    if j > 0 {
      ClockSplits(stations, work, leg, j - 1);
    }
  }

  ghost predicate LegsNonNegative(leg: (int, int) -> real) {
    forall a, b :: leg(a, b) >= 0.0
  }

  predicate WorkNonNegative(work: seq<real>) {
    forall k :: 0 <= k < |work| ==> work[k] >= 0.0
  }

  /** With no negative leg and no negative work, a vehicle reaches its entries in order. */
  lemma {:induction false} ArrivalsOrdered(stations: seq<int>, work: seq<real>, leg: (int, int) -> real, i: int, j: int)
    requires |work| == |stations| && 0 <= i <= j < |stations|
    requires LegsNonNegative(leg) && WorkNonNegative(work)
    ensures Arrival(stations, work, leg, i) <= Arrival(stations, work, leg, j)
  {
    if i < j {
      ArrivalsOrdered(stations, work, leg, i, j - 1);
      var a, b := From(stations, j), stations[j];
      assert work[j - 1] >= 0.0 && leg(a, b) >= 0.0;
    }
  }

  /** The driving time of a schedule that starts at the depot is the travel time of its stations so far. */
  lemma {:induction false} DriveIsTravel(stations: seq<int>, leg: (int, int) -> real, j: int)
    requires 0 <= j < |stations| && stations[0] == 0
    ensures Drive(stations, leg, j) == Travel(stations[..j + 1], leg)
    ensures j == |stations| - 1 ==> Drive(stations, leg, j) == Travel(stations, leg)
  {
    if j > 0 {
      DriveIsTravel(stations, leg, j - 1);
      assert stations[..j + 1][..j] == stations[..j];
    }
    assert j == |stations| - 1 ==> stations[..j + 1] == stations;
  }

  // ---------------------------------------------------------------------
  // Trucks
  // ---------------------------------------------------------------------

  /** The work at each truck entry: the first entry counts only its loads, every other entry all four operations. */
  function TruckWork(p: Params, plan: seq<TruckEntry>): (w: seq<real>)
    requires ValidParams(p)
    ensures |w| == |plan|
  {
    seq(|plan|, k requires 0 <= k < |plan| =>
      if k == 0 then OpTime(p, plan[0].loadU + plan[0].loadB) else OpTime(p, Ops(plan[k])))
  }

  /** A truck schedule with its arrival times stamped (Individual.cpp:358-387). */
  function StampedTruck(p: Params, inst: Instance, plan: seq<TruckEntry>): (r: seq<TruckEntry>)
    requires ValidParams(p)
    ensures |r| == |plan|
  {
    seq(|plan|, k requires 0 <= k < |plan| =>
      plan[k].(arrivingTime := Arrival(StationsOf(plan), TruckWork(p, plan), LegTime(inst, false), k)))
  }

  /** Stamping changes nothing but the arrival times, and the first entry is reached at 0. */
  lemma StampedTruckKeeps(p: Params, inst: Instance, plan: seq<TruckEntry>)
    requires ValidParams(p)
    ensures forall k :: 0 <= k < |plan| ==> StampedTruck(p, inst, plan)[k].(arrivingTime := plan[k].arrivingTime) == plan[k]
    ensures |plan| > 0 ==> StampedTruck(p, inst, plan)[0].arrivingTime == 0.0
  {
  }

  /** The emission of the leg a truck drives after entry e, over a distance d. */
  function LegEmission(e: TruckEntry, d: real): real {
    2.61 * (0.252 + 0.0003 * (e.truckBQ + e.truckUQ) as real) * d / 60.0 * 0.42
  }

  /** A truck's emission up to entry j: every leg at the load the truck carries on it. */
  function Emission(inst: Instance, plan: seq<TruckEntry>, j: int): real
    requires 0 <= j < |plan|
  {
    if j == 0 then 0.0
    else Emission(inst, plan, j - 1) + LegEmission(plan[j - 1], inst.dist(From(StationsOf(plan), j), plan[j].station))
  }

  /** A leg emits nothing negative when the truck carries no negative load and the distance is not negative. */
  lemma LegEmissionNonNegative(e: TruckEntry, d: real)
    requires e.truckBQ >= 0 && e.truckUQ >= 0 && d >= 0.0
    ensures LegEmission(e, d) >= 0.0
  {
    var c := 2.61 * (0.252 + 0.0003 * (e.truckBQ + e.truckUQ) as real);
    assert c > 0.0;
    assert c * d >= 0.0;
  }

  /** With no negative distance, a consistent truck schedule emits nothing negative. */
  lemma {:induction false} EmissionNonNegative(inst: Instance, plan: seq<TruckEntry>, cap: int, j: int)
    requires PlanOk(plan, cap) && 0 <= j < |plan|
    requires forall a, b :: inst.dist(a, b) >= 0.0
    ensures Emission(inst, plan, j) >= 0.0
  {
    if j > 0 {
      EmissionNonNegative(inst, plan, cap, j - 1);
      assert EntryOk(plan, j - 1, cap);
      LegEmissionNonNegative(plan[j - 1], inst.dist(From(StationsOf(plan), j), plan[j].station));
    }
  }

  /** What one vehicle contributes to the evaluation: driving time, working time and emission. */
  datatype Tour = Tour(drive: real, busy: real, emission: real)

  function Plus(a: Tour, b: Tour): Tour {
    Tour(a.drive + b.drive, a.busy + b.busy, a.emission + b.emission)
  }

  function TruckTour(p: Params, inst: Instance, plan: seq<TruckEntry>): Tour
    requires ValidParams(p) && |plan| >= 1
  {
    Tour(Drive(StationsOf(plan), LegTime(inst, false), |plan| - 1),
         Busy(TruckWork(p, plan), |plan| - 1),
         Emission(inst, plan, |plan| - 1))
  }

  /**
   * Times one truck schedule (Individual.cpp:358-392): stamps each entry's
   * arrival time and sums the legs, the operations and the emission.
   */
  method StampTruck(p: Params, inst: Instance, plan: seq<TruckEntry>) returns (stamped: seq<TruckEntry>, tour: Tour)
    requires ValidParams(p) && |plan| >= 1
    ensures stamped == StampedTruck(p, inst, plan) && tour == TruckTour(p, inst, plan)
  {
    ghost var target := StampedTruck(p, inst, plan);
    stamped := plan[0 := plan[0].(arrivingTime := 0.0)];
    var clock := OpTime(p, plan[0].loadU + plan[0].loadB);
    var drive, busy, emission := 0.0, clock, 0.0;
    var prev := 0;
    var j := 1;
    while j < |plan|
      invariant 1 <= j <= |plan| && |stamped| == |plan|
      invariant prev == if j == 1 then 0 else plan[j - 1].station
      invariant clock == Clock(StationsOf(plan), TruckWork(p, plan), LegTime(inst, false), j - 1)
      invariant drive == Drive(StationsOf(plan), LegTime(inst, false), j - 1)
      invariant busy == Busy(TruckWork(p, plan), j - 1) && emission == Emission(inst, plan, j - 1)
      invariant forall k :: 0 <= k < j ==> stamped[k] == target[k]
      invariant forall k :: j <= k < |plan| ==> stamped[k] == plan[k]
    {
      TruckStep(p, inst, plan, j, prev);
      var d := inst.dist(prev, plan[j].station);
      clock := clock + d;
      stamped := stamped[j := plan[j].(arrivingTime := clock)];
      clock := clock + OpTime(p, Ops(plan[j]));
      emission := emission + LegEmission(plan[j - 1], d);
      drive := drive + d;
      busy := busy + OpTime(p, Ops(plan[j]));
      prev := plan[j].station;
      j := j + 1;
    }
    tour := Tour(drive, busy, emission);
  }

  /** What entry j adds to a truck's clock, its arrival time, its driving and working times and its emission. */
  lemma TruckStep(p: Params, inst: Instance, plan: seq<TruckEntry>, j: int, prev: int)
    requires ValidParams(p) && 1 <= j < |plan| && prev == if j == 1 then 0 else plan[j - 1].station
    ensures StampedTruck(p, inst, plan)[j] == plan[j].(arrivingTime :=
      Clock(StationsOf(plan), TruckWork(p, plan), LegTime(inst, false), j - 1) + inst.dist(prev, plan[j].station))
    ensures Clock(StationsOf(plan), TruckWork(p, plan), LegTime(inst, false), j) ==
      Clock(StationsOf(plan), TruckWork(p, plan), LegTime(inst, false), j - 1) + inst.dist(prev, plan[j].station)
      + OpTime(p, Ops(plan[j]))
    ensures Drive(StationsOf(plan), LegTime(inst, false), j) ==
      Drive(StationsOf(plan), LegTime(inst, false), j - 1) + inst.dist(prev, plan[j].station)
    ensures Busy(TruckWork(p, plan), j) == Busy(TruckWork(p, plan), j - 1) + OpTime(p, Ops(plan[j]))
    ensures Emission(inst, plan, j) == Emission(inst, plan, j - 1) + LegEmission(plan[j - 1], inst.dist(prev, plan[j].station))
  {
    assert From(StationsOf(plan), j) == prev;
  }

  /**
   * The evaluator's clock agrees with the time the truck amendment budgets: a
   * schedule that starts at the depot and unloads nothing there is done, by
   * the evaluator's clock, after exactly TruckTime.
   */
  lemma TruckClockIsTruckTime(p: Params, inst: Instance, plan: seq<TruckEntry>)
    requires ValidParams(p) && |plan| >= 1 && plan[0].station == 0
    requires plan[0].unloadU == 0 && plan[0].unloadB == 0
    ensures Clock(StationsOf(plan), TruckWork(p, plan), LegTime(inst, false), |plan| - 1) == TruckTime(p, inst, plan)
  {
    var last := |plan| - 1;
    assert Clock(StationsOf(plan), TruckWork(p, plan), LegTime(inst, false), last)
        == Drive(StationsOf(plan), LegTime(inst, false), last) + Busy(TruckWork(p, plan), last) by {
      ClockSplits(StationsOf(plan), TruckWork(p, plan), LegTime(inst, false), last);
    }
    assert Drive(StationsOf(plan), LegTime(inst, false), last) == Travel(StationsOf(plan), LegTime(inst, false)) by {
      DriveIsTravel(StationsOf(plan), LegTime(inst, false), last);
    }
    assert Busy(TruckWork(p, plan), last) == OpTime(p, Tally(plan, OpsOf())) by {
      BusyIsOpTime(p, plan, last);
    }
  }

  /** The working time up to entry j is the loading time of every operation so far. */
  lemma {:induction false} BusyIsOpTime(p: Params, plan: seq<TruckEntry>, j: int)
    requires ValidParams(p) && 0 <= j < |plan| && plan[0].unloadU == 0 && plan[0].unloadB == 0
    ensures Busy(TruckWork(p, plan), j) == OpTime(p, Tally(plan[..j + 1], OpsOf()))
    ensures j == |plan| - 1 ==> Busy(TruckWork(p, plan), j) == OpTime(p, Tally(plan, OpsOf()))
  {
    assert j == |plan| - 1 ==> plan[..j + 1] == plan;
    var front := plan[..j + 1];
    assert front[..j] == plan[..j];
    if j == 0 {
      assert Tally(front[..0], OpsOf()) == 0;
    } else {
      BusyIsOpTime(p, plan, j - 1);
      OpTimeAdd(p, Tally(plan[..j], OpsOf()), Ops(plan[j]));
    }
  }

  // ---------------------------------------------------------------------
  // Repairmen
  // ---------------------------------------------------------------------

  /** The work at each repairman entry: nothing at the first, the repair time of its repairs at every other. */
  function RepairWork(p: Params, plan: seq<RepairEntry>): (w: seq<real>)
    requires ValidParams(p)
    ensures |w| == |plan|
  {
    seq(|plan|, k requires 0 <= k < |plan| => if k == 0 then 0.0 else RepairTime(p, plan[k].repair))
  }

  /** A repairman schedule with its arrival times stamped (Individual.cpp:394-412); legs take 1.68 times as long. */
  function StampedRepair(p: Params, inst: Instance, plan: seq<RepairEntry>): (r: seq<RepairEntry>)
    requires ValidParams(p)
    ensures |r| == |plan|
  {
    seq(|plan|, k requires 0 <= k < |plan| =>
      plan[k].(arrivingTime := Arrival(RepairStations(plan), RepairWork(p, plan), LegTime(inst, true), k)))
  }

  /** Stamping changes nothing but the arrival times, and the first entry is reached at 0. */
  lemma StampedRepairKeeps(p: Params, inst: Instance, plan: seq<RepairEntry>)
    requires ValidParams(p)
    ensures forall k :: 0 <= k < |plan| ==> StampedRepair(p, inst, plan)[k].(arrivingTime := plan[k].arrivingTime) == plan[k]
    ensures |plan| > 0 ==> StampedRepair(p, inst, plan)[0].arrivingTime == 0.0
  {
  }

  function RepairTour(p: Params, inst: Instance, plan: seq<RepairEntry>): Tour
    requires ValidParams(p) && |plan| >= 1
  {
    Tour(Drive(RepairStations(plan), LegTime(inst, true), |plan| - 1), Busy(RepairWork(p, plan), |plan| - 1), 0.0)
  }

  /** Times one repairman schedule (Individual.cpp:394-416). */
  method StampRepair(p: Params, inst: Instance, plan: seq<RepairEntry>) returns (stamped: seq<RepairEntry>, tour: Tour)
    requires ValidParams(p) && |plan| >= 1
    ensures stamped == StampedRepair(p, inst, plan) && tour == RepairTour(p, inst, plan)
  {
    ghost var target := StampedRepair(p, inst, plan);
    stamped := plan[0 := plan[0].(arrivingTime := 0.0)];
    var clock := 0.0;
    var drive, busy := 0.0, 0.0;
    var prev := 0;
    var j := 1;
    while j < |plan|
      invariant 1 <= j <= |plan| && |stamped| == |plan|
      invariant prev == if j == 1 then 0 else plan[j - 1].station
      invariant clock == Clock(RepairStations(plan), RepairWork(p, plan), LegTime(inst, true), j - 1)
      invariant drive == Drive(RepairStations(plan), LegTime(inst, true), j - 1)
      invariant busy == Busy(RepairWork(p, plan), j - 1)
      invariant forall k :: 0 <= k < j ==> stamped[k] == target[k]
      invariant forall k :: j <= k < |plan| ==> stamped[k] == plan[k]
    {
      RepairStep(p, inst, plan, j, prev);
      var d := inst.dist(prev, plan[j].station) * 1.68;
      clock := clock + d;
      stamped := stamped[j := plan[j].(arrivingTime := clock)];
      var repairTime := RepairTime(p, plan[j].repair);
      clock := clock + repairTime;
      drive := drive + d;
      busy := busy + repairTime;
      prev := plan[j].station;
      j := j + 1;
    }
    tour := Tour(drive, busy, 0.0);
  }

  /** What entry j adds to a repairman's clock, its arrival time and its driving and working times. */
  lemma RepairStep(p: Params, inst: Instance, plan: seq<RepairEntry>, j: int, prev: int)
    requires ValidParams(p) && 1 <= j < |plan| && prev == if j == 1 then 0 else plan[j - 1].station
    ensures StampedRepair(p, inst, plan)[j] == plan[j].(arrivingTime :=
      Clock(RepairStations(plan), RepairWork(p, plan), LegTime(inst, true), j - 1) + inst.dist(prev, plan[j].station) * 1.68)
    ensures Clock(RepairStations(plan), RepairWork(p, plan), LegTime(inst, true), j) ==
      Clock(RepairStations(plan), RepairWork(p, plan), LegTime(inst, true), j - 1) + inst.dist(prev, plan[j].station) * 1.68
      + RepairTime(p, plan[j].repair)
    ensures Drive(RepairStations(plan), LegTime(inst, true), j) ==
      Drive(RepairStations(plan), LegTime(inst, true), j - 1) + inst.dist(prev, plan[j].station) * 1.68
    ensures Busy(RepairWork(p, plan), j) == Busy(RepairWork(p, plan), j - 1) + RepairTime(p, plan[j].repair)
  {
    assert From(RepairStations(plan), j) == prev;
  }

  /**
   * Stamped arrival times start at 0 and never decrease along a schedule, for
   * non-negative distances and quantities (Individual.cpp:359-379, 395-406).
   */
  lemma StampedTruckOrdered(p: Params, inst: Instance, plan: seq<TruckEntry>, cap: int, i: int, j: int)
    requires ValidParams(p) && PlanOk(plan, cap) && 0 <= i <= j < |plan|
    requires forall a, b :: inst.dist(a, b) >= 0.0
    ensures StampedTruck(p, inst, plan)[i].arrivingTime <= StampedTruck(p, inst, plan)[j].arrivingTime
  {
    var work := TruckWork(p, plan);
    forall k | 0 <= k < |work| ensures work[k] >= 0.0 {
      assert EntryOk(plan, k, cap);
    }
    ArrivalsOrdered(StationsOf(plan), work, LegTime(inst, false), i, j);
  }

  lemma StampedRepairOrdered(p: Params, inst: Instance, plan: seq<RepairEntry>, i: int, j: int)
    requires ValidParams(p) && 0 <= i <= j < |plan|
    requires forall k :: 1 <= k < |plan| ==> plan[k].repair >= 0
    requires forall a, b :: inst.dist(a, b) >= 0.0
    ensures StampedRepair(p, inst, plan)[i].arrivingTime <= StampedRepair(p, inst, plan)[j].arrivingTime
  {
    var leg := LegTime(inst, true);
    forall a, b ensures leg(a, b) >= 0.0 {
      assert inst.dist(a, b) >= 0.0;
    }
    ArrivalsOrdered(RepairStations(plan), RepairWork(p, plan), leg, i, j);
  }

  // ---------------------------------------------------------------------
  // The fleet
  // ---------------------------------------------------------------------

  /** The stops of a truck schedule the evaluator replays: every entry after the first. */
  function TruckStops(plan: seq<TruckEntry>): (r: seq<Event>)
    requires |plan| >= 1
    ensures |r| == |plan| - 1 && forall k :: 0 <= k < |r| ==> r[k] == TruckStop(plan[k + 1])
  {
    seq(|plan| - 1, k requires 0 <= k < |plan| - 1 => TruckStop(plan[k + 1]))
  }

  function RepairStops(plan: seq<RepairEntry>): (r: seq<Event>)
    requires |plan| >= 1
    ensures |r| == |plan| - 1 && forall k :: 0 <= k < |r| ==> r[k] == RepairStop(plan[k + 1])
  {
    seq(|plan| - 1, k requires 0 <= k < |plan| - 1 => RepairStop(plan[k + 1]))
  }

  predicate TruckPlansOk(p: Params, plans: seq<seq<TruckEntry>>) {
    forall v :: 0 <= v < |plans| ==> |plans[v]| >= 1 && RouteIds(p, StationsOf(plans[v]))
  }

  predicate RepairPlansOk(p: Params, plans: seq<seq<RepairEntry>>) {
    forall v :: 0 <= v < |plans| ==> |plans[v]| >= 1 && RouteIds(p, RepairStations(plans[v]))
  }

  /** The truck stops of the fleet, truck after truck. */
  function TruckEvents(plans: seq<seq<TruckEntry>>): seq<Event>
    requires forall v :: 0 <= v < |plans| ==> |plans[v]| >= 1
  {
    if plans == [] then [] else TruckEvents(plans[..|plans| - 1]) + TruckStops(plans[|plans| - 1])
  }

  function RepairEvents(plans: seq<seq<RepairEntry>>): seq<Event>
    requires forall v :: 0 <= v < |plans| ==> |plans[v]| >= 1
  {
    if plans == [] then [] else RepairEvents(plans[..|plans| - 1]) + RepairStops(plans[|plans| - 1])
  }

  function TrucksTotal(p: Params, inst: Instance, plans: seq<seq<TruckEntry>>): Tour
    requires ValidParams(p) && forall v :: 0 <= v < |plans| ==> |plans[v]| >= 1
  {
    if plans == [] then Tour(0.0, 0.0, 0.0)
    else Plus(TrucksTotal(p, inst, plans[..|plans| - 1]), TruckTour(p, inst, plans[|plans| - 1]))
  }

  function RepairsTotal(p: Params, inst: Instance, plans: seq<seq<RepairEntry>>): Tour
    requires ValidParams(p) && forall v :: 0 <= v < |plans| ==> |plans[v]| >= 1
  {
    if plans == [] then Tour(0.0, 0.0, 0.0)
    else Plus(RepairsTotal(p, inst, plans[..|plans| - 1]), RepairTour(p, inst, plans[|plans| - 1]))
  }

  /** One more truck: its stops follow the fleet's, its tour adds to the fleet's. */
  lemma TruckFleetGrows(p: Params, inst: Instance, plans: seq<seq<TruckEntry>>, v: int,
                        stamped: seq<seq<TruckEntry>>, s: seq<TruckEntry>)
    requires ValidParams(p) && (forall w :: 0 <= w < |plans| ==> |plans[w]| >= 1) && 0 <= v < |plans|
    requires (forall w :: 0 <= w < |stamped| ==> |stamped[w]| >= 1) && |s| >= 1
    ensures TruckEvents(stamped + [s]) == TruckEvents(stamped) + TruckStops(s)
    ensures TrucksTotal(p, inst, plans[..v + 1]) == Plus(TrucksTotal(p, inst, plans[..v]), TruckTour(p, inst, plans[v]))
  {
    assert (stamped + [s])[..|stamped|] == stamped;
    assert plans[..v + 1][..v] == plans[..v];
  }

  lemma RepairFleetGrows(p: Params, inst: Instance, plans: seq<seq<RepairEntry>>, v: int,
                         stamped: seq<seq<RepairEntry>>, s: seq<RepairEntry>)
    requires ValidParams(p) && (forall w :: 0 <= w < |plans| ==> |plans[w]| >= 1) && 0 <= v < |plans|
    requires (forall w :: 0 <= w < |stamped| ==> |stamped[w]| >= 1) && |s| >= 1
    ensures RepairEvents(stamped + [s]) == RepairEvents(stamped) + RepairStops(s)
    ensures RepairsTotal(p, inst, plans[..v + 1]) == Plus(RepairsTotal(p, inst, plans[..v]), RepairTour(p, inst, plans[v]))
  {
    assert (stamped + [s])[..|stamped|] == stamped;
    assert plans[..v + 1][..v] == plans[..v];
  }

  /** Times every truck schedule (Individual.cpp:356-392) and collects their stops. */
  method StampTrucks(p: Params, inst: Instance, plans: seq<seq<TruckEntry>>)
    returns (stamped: seq<seq<TruckEntry>>, events: seq<Event>, total: Tour)
    requires ValidParams(p) && forall v :: 0 <= v < |plans| ==> |plans[v]| >= 1
    ensures |stamped| == |plans| && forall v :: 0 <= v < |plans| ==> stamped[v] == StampedTruck(p, inst, plans[v])
    ensures forall v :: 0 <= v < |stamped| ==> |stamped[v]| >= 1
    ensures events == TruckEvents(stamped) && total == TrucksTotal(p, inst, plans)
  {
    stamped, events, total := [], [], Tour(0.0, 0.0, 0.0);
    for v := 0 to |plans|
      invariant |stamped| == v && forall w :: 0 <= w < v ==> stamped[w] == StampedTruck(p, inst, plans[w])
      invariant forall w :: 0 <= w < v ==> |stamped[w]| >= 1
      invariant events == TruckEvents(stamped) && total == TrucksTotal(p, inst, plans[..v])
    {
      var s, tour := StampTruck(p, inst, plans[v]);
      TruckFleetGrows(p, inst, plans, v, stamped, s);
      stamped, events, total := stamped + [s], events + TruckStops(s), Plus(total, tour);
    }
    assert plans[..|plans|] == plans;
  }

  /** Times every repairman schedule (Individual.cpp:393-416) and collects their stops. */
  method StampRepairs(p: Params, inst: Instance, plans: seq<seq<RepairEntry>>)
    returns (stamped: seq<seq<RepairEntry>>, events: seq<Event>, total: Tour)
    requires ValidParams(p) && forall v :: 0 <= v < |plans| ==> |plans[v]| >= 1
    ensures |stamped| == |plans| && forall v :: 0 <= v < |plans| ==> stamped[v] == StampedRepair(p, inst, plans[v])
    ensures forall v :: 0 <= v < |stamped| ==> |stamped[v]| >= 1
    ensures events == RepairEvents(stamped) && total == RepairsTotal(p, inst, plans)
  {
    stamped, events, total := [], [], Tour(0.0, 0.0, 0.0);
    for v := 0 to |plans|
      invariant |stamped| == v && forall w :: 0 <= w < v ==> stamped[w] == StampedRepair(p, inst, plans[w])
      invariant forall w :: 0 <= w < v ==> |stamped[w]| >= 1
      invariant events == RepairEvents(stamped) && total == RepairsTotal(p, inst, plans[..v])
    {
      var s, tour := StampRepair(p, inst, plans[v]);
      RepairFleetGrows(p, inst, plans, v, stamped, s);
      stamped, events, total := stamped + [s], events + RepairStops(s), Plus(total, tour);
    }
    assert plans[..|plans|] == plans;
  }

  // ---------------------------------------------------------------------
  // Replaying the stops
  // ---------------------------------------------------------------------

  function EventStation(e: Event): int {
    match e
    case TruckStop(t) => t.station
    case RepairStop(r) => r.station
  }

  function ArrivalOf(e: Event): real {
    match e
    case TruckStop(t) => t.arrivingTime
    case RepairStop(r) => r.arrivingTime
  }

  /** What a stop does to the station's usable stock: repairs add to it, a truck takes its loads and leaves its unloads. */
  function UsableDelta(e: Event): int {
    match e
    case TruckStop(t) => t.unloadU - t.loadU
    case RepairStop(r) => r.repair
  }

  function BrokenDelta(e: Event): int {
    match e
    case TruckStop(t) => t.unloadB - t.loadB
    case RepairStop(r) => -r.repair
  }

  /** Every stop names a station of the instance. */
  predicate EventsWithin(inst: Instance, events: seq<Event>) {
    forall k :: 0 <= k < |events| ==> 0 <= EventStation(events[k]) < |inst.networkInfo|
  }

  predicate OutOfBounds(inst: Instance, s: int, u: int, b: int)
    requires 0 < s < |inst.networkInfo|
  {
    u < 0 || b < 0 || u + b > Capacity(inst, s)
  }

  /** How far a station's stock is out of bounds: its negative parts and its overflow (Individual.cpp:447-450). */
  function Shortfall(inst: Instance, s: int, u: int, b: int): (x: int)
    requires 0 < s < |inst.networkInfo|
    ensures x >= 0 && (x > 0 <==> OutOfBounds(inst, s, u, b))
  {
    -(Min(u, 0) + Min(b, 0) + Min(Capacity(inst, s) - u - b, 0))
  }

  /** The replay's state: the stock of every station, the capacity excess so far and whether every stop was in bounds. */
  datatype ReplayState = ReplayState(usable: seq<int>, broken: seq<int>, excess: int, feasible: bool)

  predicate Sized(inst: Instance, st: ReplayState) {
    |st.usable| == |inst.networkInfo| && |st.broken| == |inst.networkInfo|
  }

  /** The replay starts from the stations' initial stock, with no excess. */
  function Start(inst: Instance): (st: ReplayState)
    ensures Sized(inst, st) && st.excess == 0 && st.feasible
  {
    ReplayState(InitialUsable(inst), InitialBroken(inst), 0, true)
  }

  /** One stop of the replay (Individual.cpp:430-453); the depot is skipped. */
  function Step(inst: Instance, st: ReplayState, e: Event): (r: ReplayState)
    requires Sized(inst, st) && 0 <= EventStation(e) < |inst.networkInfo|
    ensures Sized(inst, r)
  {
    var s := EventStation(e);
    if s == 0 then st
    else
      var u, b := st.usable[s] + UsableDelta(e), st.broken[s] + BrokenDelta(e);
      if OutOfBounds(inst, s, u, b) then
        ReplayState(st.usable[s := u], st.broken[s := b], st.excess + Shortfall(inst, s, u, b), false)
      else
        ReplayState(st.usable[s := u], st.broken[s := b], st.excess, st.feasible)
  }

  function Replay(inst: Instance, st: ReplayState, events: seq<Event>): (r: ReplayState)
    requires Sized(inst, st) && EventsWithin(inst, events)
    ensures Sized(inst, r)
  {
    if events == [] then st
    else Step(inst, Replay(inst, st, events[..|events| - 1]), events[|events| - 1])
  }

  /** The stop e takes its station out of bounds from the state st. */
  predicate Violates(inst: Instance, st: ReplayState, e: Event)
    requires Sized(inst, st) && 0 <= EventStation(e) < |inst.networkInfo|
  {
    var s := EventStation(e);
    s != 0 && OutOfBounds(inst, s, st.usable[s] + UsableDelta(e), st.broken[s] + BrokenDelta(e))
  }

  /** Replays one stop (Individual.cpp:431-452): the station's stock moves and is checked against its bounds. */
  method ReplayStop(inst: Instance, usable: seq<int>, broken: seq<int>, excess: int, feasible: bool, e: Event)
    returns (usable': seq<int>, broken': seq<int>, excess': int, feasible': bool)
    requires Sized(inst, ReplayState(usable, broken, excess, feasible)) && 0 <= EventStation(e) < |inst.networkInfo|
    ensures ReplayState(usable', broken', excess', feasible') == Step(inst, ReplayState(usable, broken, excess, feasible), e)
  {
    usable', broken', excess', feasible' := usable, broken, excess, feasible;
    var s := EventStation(e);
    if s != 0 {
      match e {
        case RepairStop(r) =>
          usable' := usable'[s := usable'[s] + r.repair];
          broken' := broken'[s := broken'[s] - r.repair];
        case TruckStop(t) =>
          usable' := usable'[s := usable'[s] - t.loadU];
          broken' := broken'[s := broken'[s] - t.loadB];
          usable' := usable'[s := usable'[s] + t.unloadU];
          broken' := broken'[s := broken'[s] + t.unloadB];
      }
      if usable'[s] < 0 || broken'[s] < 0 || usable'[s] + broken'[s] > Capacity(inst, s) {
        feasible' := false;
        excess' := excess' - (Min(usable'[s], 0) + Min(broken'[s], 0) + Min(Capacity(inst, s) - usable'[s] - broken'[s], 0));
      }
    }
  }

  /** Replays the stops in the given order from the initial stock (Individual.cpp:347-352, 430-453). */
  method ReplayEvents(inst: Instance, events: seq<Event>)
    returns (usable: seq<int>, broken: seq<int>, excess: int, feasible: bool)
    requires EventsWithin(inst, events)
    ensures ReplayState(usable, broken, excess, feasible) == Replay(inst, Start(inst), events)
  {
    usable, broken, excess, feasible := InitialUsable(inst), InitialBroken(inst), 0, true;
    for i := 0 to |events|
      invariant ReplayState(usable, broken, excess, feasible) == Replay(inst, Start(inst), events[..i])
    {
      assert events[..i + 1][..i] == events[..i];
      usable, broken, excess, feasible := ReplayStop(inst, usable, broken, excess, feasible, events[i]);
    }
    assert events[..|events|] == events;
  }

  /**
   * The capacity excess never falls, and the replay stays feasible exactly
   * when the excess does not grow (Individual.cpp:342-345, 444-451).
   */
  lemma {:induction false} ExcessGrows(inst: Instance, st: ReplayState, events: seq<Event>)
    requires Sized(inst, st) && EventsWithin(inst, events)
    ensures Replay(inst, st, events).excess >= st.excess
    ensures Replay(inst, st, events).feasible <==> st.feasible && Replay(inst, st, events).excess == st.excess
  {
    if events != [] {
      ExcessGrows(inst, st, events[..|events| - 1]);
    }
  }

  /** A replay that ends feasible was feasible after every prefix of its stops. */
  lemma {:induction false} FeasibleShrinks(inst: Instance, st: ReplayState, events: seq<Event>, m: int)
    requires Sized(inst, st) && EventsWithin(inst, events) && 0 <= m <= |events|
    ensures Replay(inst, st, events).feasible ==> Replay(inst, st, events[..m]).feasible
  {
    if m < |events| {
      var front := events[..|events| - 1];
      FeasibleShrinks(inst, st, front, m);
      assert front[..m] == events[..m];
    } else {
      assert events[..m] == events;
    }
  }

  /** A stop that takes its station out of bounds leaves the replay infeasible for good. */
  lemma ViolationSticks(inst: Instance, st: ReplayState, events: seq<Event>, k: int)
    requires Sized(inst, st) && EventsWithin(inst, events) && 0 <= k < |events|
    requires Violates(inst, Replay(inst, st, events[..k]), events[k])
    ensures !Replay(inst, st, events).feasible
  {
    FeasibleShrinks(inst, st, events, k + 1);
    assert events[..k + 1][..k] == events[..k];
  }

  /** A replay from a feasible state in which no stop violates a bound ends feasible. */
  lemma {:induction false} NoViolationFeasible(inst: Instance, st: ReplayState, events: seq<Event>)
    requires Sized(inst, st) && EventsWithin(inst, events) && st.feasible
    requires forall k :: 0 <= k < |events| ==> !Violates(inst, Replay(inst, st, events[..k]), events[k])
    ensures Replay(inst, st, events).feasible
  {
    if events != [] {
      var n := |events| - 1;
      var front := events[..n];
      forall k | 0 <= k < n ensures !Violates(inst, Replay(inst, st, front[..k]), front[k]) {
        assert front[..k] == events[..k];
      }
      NoViolationFeasible(inst, st, front);
      assert !Violates(inst, Replay(inst, st, events[..n]), events[n]);
    }
  }

  /** The replay ends feasible exactly when no stop took its station out of bounds (Individual.cpp:345, 444-452). */
  lemma FeasibleIffNoViolation(inst: Instance, st: ReplayState, events: seq<Event>)
    requires Sized(inst, st) && EventsWithin(inst, events)
    ensures Replay(inst, st, events).feasible <==>
      st.feasible && forall k :: 0 <= k < |events| ==> !Violates(inst, Replay(inst, st, events[..k]), events[k])
  {
    if Replay(inst, st, events).feasible {
      forall k | 0 <= k < |events| ensures !Violates(inst, Replay(inst, st, events[..k]), events[k]) {
        if Violates(inst, Replay(inst, st, events[..k]), events[k]) {
          ViolationSticks(inst, st, events, k);
        }
      }
      ExcessGrows(inst, st, events);
    } else if st.feasible && forall k :: 0 <= k < |events| ==> !Violates(inst, Replay(inst, st, events[..k]), events[k]) {
      NoViolationFeasible(inst, st, events);
    }
  }

  /** What the stops at s add to its usable stock; the depot is never touched. */
  function UsableAt(s: int): Event -> int {
    (e: Event) => if s != 0 && EventStation(e) == s then UsableDelta(e) else 0
  }

  function BrokenAt(s: int): Event -> int {
    (e: Event) => if s != 0 && EventStation(e) == s then BrokenDelta(e) else 0
  }

  function SumBy(events: seq<Event>, f: Event -> int): int {
    if events == [] then 0 else SumBy(events[..|events| - 1], f) + f(events[|events| - 1])
  }

  /** The stock the replay ends with is the initial stock plus what the stops at each station moved. */
  lemma {:induction false} ReplayStock(inst: Instance, st: ReplayState, events: seq<Event>, s: int)
    requires Sized(inst, st) && EventsWithin(inst, events) && 0 <= s < |inst.networkInfo|
    ensures Replay(inst, st, events).usable[s] == st.usable[s] + SumBy(events, UsableAt(s))
    ensures Replay(inst, st, events).broken[s] == st.broken[s] + SumBy(events, BrokenAt(s))
  {
    if events != [] {
      ReplayStock(inst, st, events[..|events| - 1], s);
    }
  }

  lemma {:induction false} SumByConcat(a: seq<Event>, b: seq<Event>, f: Event -> int)
    ensures SumBy(a + b, f) == SumBy(a, f) + SumBy(b, f)
  {
    if b == [] {
      assert a + b == a;
    } else {
      SumByConcat(a, b[..|b| - 1], f);
      assert (a + b)[..|a + b| - 1] == a + b[..|b| - 1];
      assert (a + b)[|a + b| - 1] == b[|b| - 1];
    }
  }

  /** Sums over stops do not depend on their order. */
  lemma {:induction false} SumByPermutation(a: seq<Event>, b: seq<Event>, f: Event -> int)
    requires multiset(a) == multiset(b)
    ensures SumBy(a, f) == SumBy(b, f)
  {
    if a != [] {
      var n := |a| - 1;
      var x := a[n];
      assert a == a[..n] + [x];
      assert x in multiset(b);
      var i :| 0 <= i < |b| && b[i] == x;
      var rest := b[..i] + b[i + 1..];
      assert b == b[..i] + [x] + b[i + 1..];
      calc {
        multiset(a[..n]);
        multiset(a) - multiset{x};
        multiset(b) - multiset{x};
        multiset(b[..i]) + multiset(b[i + 1..]);
        multiset(rest);
      }
      SumByPermutation(a[..n], rest, f);
      SumByConcat(b[..i] + [x], b[i + 1..], f);
      SumByConcat(b[..i], [x], f);
      SumByConcat(b[..i], b[i + 1..], f);
      assert [x][..0] == [];
    }
  }

  /**
   * The order of the stops decides feasibility and excess but not the stock
   * the replay ends with, so the tie order of the sort by arrival time does
   * not change the dissatisfaction of a feasible solution.
   */
  lemma StockIgnoresOrder(inst: Instance, st: ReplayState, a: seq<Event>, b: seq<Event>)
    requires Sized(inst, st) && EventsWithin(inst, a) && EventsWithin(inst, b) && multiset(a) == multiset(b)
    ensures Replay(inst, st, a).usable == Replay(inst, st, b).usable
    ensures Replay(inst, st, a).broken == Replay(inst, st, b).broken
  {
    forall s | 0 <= s < |inst.networkInfo|
      ensures Replay(inst, st, a).usable[s] == Replay(inst, st, b).usable[s]
      ensures Replay(inst, st, a).broken[s] == Replay(inst, st, b).broken[s]
    {
      ReplayStock(inst, st, a, s);
      ReplayStock(inst, st, b, s);
      SumByPermutation(a, b, UsableAt(s));
      SumByPermutation(a, b, BrokenAt(s));
    }
  }

  predicate StockInBounds(inst: Instance, st: ReplayState)
    requires Sized(inst, st)
  {
    forall s :: 0 < s < |inst.networkInfo| ==> !OutOfBounds(inst, s, st.usable[s], st.broken[s])
  }

  /** A feasible replay from in-bounds stock ends with every station in bounds. */
  lemma {:induction false} FeasibleEndsInBounds(inst: Instance, st: ReplayState, events: seq<Event>)
    requires Sized(inst, st) && EventsWithin(inst, events) && StockInBounds(inst, st)
    ensures Replay(inst, st, events).feasible ==> StockInBounds(inst, Replay(inst, st, events))
  {
    if events != [] {
      var front := Replay(inst, st, events[..|events| - 1]);
      FeasibleEndsInBounds(inst, st, events[..|events| - 1]);
      if Replay(inst, st, events).feasible {
        assert front.feasible;
      }
    }
  }

  // ---------------------------------------------------------------------
  // Dissatisfaction and the objective
  // ---------------------------------------------------------------------

  /** The dissatisfaction of stations 1..n that are in bounds, in station order (Individual.cpp:454-462). */
  function DissatList(inst: Instance, u: seq<int>, b: seq<int>, n: int): (l: seq<real>)
    requires |u| == |inst.networkInfo| && |b| == |inst.networkInfo| && 0 <= n < |inst.networkInfo|
    ensures |l| <= n
  {
    if n == 0 then []
    else
      DissatList(inst, u, b, n - 1)
      + (if !OutOfBounds(inst, n, u[n], b[n]) then [inst.dissat(n, u[n], b[n])] else [])
  }

  function SumReal(l: seq<real>): real {
    if l == [] then 0.0 else SumReal(l[..|l| - 1]) + l[|l| - 1]
  }

  /** With every station in bounds, the list holds the dissatisfaction of every station, in order. */
  lemma {:induction false} DissatListFull(inst: Instance, u: seq<int>, b: seq<int>, n: int)
    requires |u| == |inst.networkInfo| && |b| == |inst.networkInfo| && 0 <= n < |inst.networkInfo|
    requires forall s :: 0 < s <= n ==> !OutOfBounds(inst, s, u[s], b[s])
    ensures |DissatList(inst, u, b, n)| == n
    ensures forall k :: 0 <= k < n ==> DissatList(inst, u, b, n)[k] == inst.dissat(k + 1, u[k + 1], b[k + 1])
  {
    if n > 0 {
      DissatListFull(inst, u, b, n - 1);
    }
  }

  /** Sums the dissatisfaction of the in-bounds stations (Individual.cpp:454-462). */
  method CollectDissat(p: Params, inst: Instance, u: seq<int>, b: seq<int>) returns (total: real, list: seq<real>)
    requires |inst.networkInfo| == p.nbClients + 1 && |u| == |inst.networkInfo| && |b| == |inst.networkInfo|
    ensures list == DissatList(inst, u, b, p.nbClients) && total == SumReal(list)
  {
    total, list := 0.0, [];
    for i := 1 to p.nbClients + 1
      invariant list == DissatList(inst, u, b, i - 1) && total == SumReal(list)
    {
      if u[i] >= 0 && b[i] >= 0 && u[i] + b[i] <= Capacity(inst, i) {
        var d := inst.dissat(i, u[i], b[i]);
        assert DissatList(inst, u, b, i) == list + [d];
        assert SumReal(list + [d]) == total + d by {
          assert (list + [d])[..|list|] == list;
        }
        total := total + d;
        list := list + [d];
      } else {
        assert DissatList(inst, u, b, i) == list + [];
      }
    }
  }

  lemma {:induction false} TruckEventsWithin(p: Params, inst: Instance, plans: seq<seq<TruckEntry>>)
    requires |inst.networkInfo| == p.nbClients + 1 && TruckPlansOk(p, plans)
    ensures EventsWithin(inst, TruckEvents(plans))
  {
    if plans != [] {
      var n := |plans| - 1;
      TruckEventsWithin(p, inst, plans[..n]);
      assert IsStation(p, StationsOf(plans[n])[0]);
      forall k | 0 <= k < |plans[n]| - 1 ensures 0 <= EventStation(TruckStops(plans[n])[k]) < |inst.networkInfo| {
        assert IsStation(p, StationsOf(plans[n])[k + 1]);
      }
    }
  }

  lemma {:induction false} RepairEventsWithin(p: Params, inst: Instance, plans: seq<seq<RepairEntry>>)
    requires |inst.networkInfo| == p.nbClients + 1 && RepairPlansOk(p, plans)
    ensures EventsWithin(inst, RepairEvents(plans))
  {
    if plans != [] {
      var n := |plans| - 1;
      RepairEventsWithin(p, inst, plans[..n]);
      forall k | 0 <= k < |plans[n]| - 1 ensures 0 <= EventStation(RepairStops(plans[n])[k]) < |inst.networkInfo| {
        assert IsStation(p, RepairStations(plans[n])[k + 1]);
      }
    }
  }

  lemma EventsWithinPermutation(inst: Instance, a: seq<Event>, b: seq<Event>)
    requires EventsWithin(inst, a) && multiset(a) == multiset(b)
    ensures EventsWithin(inst, b)
  {
    forall k | 0 <= k < |b| ensures 0 <= EventStation(b[k]) < |inst.networkInfo| {
      assert b[k] in multiset(a);
    }
  }

  /** The stops of the fleet, ordered by arrival time (Individual.cpp:419-421). */
  function Merged(p: Params, inst: Instance, trucks: seq<seq<TruckEntry>>, repairs: seq<seq<RepairEntry>>): (r: seq<Event>)
    requires |inst.networkInfo| == p.nbClients + 1 && TruckPlansOk(p, trucks) && RepairPlansOk(p, repairs)
    ensures SortedBy(r, ArrivalOf) && multiset(r) == multiset(TruckEvents(trucks) + RepairEvents(repairs))
    ensures EventsWithin(inst, r)
  {
    TruckEventsWithin(p, inst, trucks);
    RepairEventsWithin(p, inst, repairs);
    var r := SortBy(TruckEvents(trucks) + RepairEvents(repairs), ArrivalOf);
    EventsWithinPermutation(inst, TruckEvents(trucks) + RepairEvents(repairs), r);
    r
  }

  /** The stamped schedules name the same stations as the schedules. */
  lemma StampedPlansOk(p: Params, inst: Instance, trucks: seq<seq<TruckEntry>>, repairs: seq<seq<RepairEntry>>,
                       trucks': seq<seq<TruckEntry>>, repairs': seq<seq<RepairEntry>>)
    requires ValidParams(p) && TruckPlansOk(p, trucks) && RepairPlansOk(p, repairs)
    requires |trucks'| == |trucks| && forall v :: 0 <= v < |trucks| ==> trucks'[v] == StampedTruck(p, inst, trucks[v])
    requires |repairs'| == |repairs| && forall v :: 0 <= v < |repairs| ==> repairs'[v] == StampedRepair(p, inst, repairs[v])
    ensures TruckPlansOk(p, trucks') && RepairPlansOk(p, repairs')
  {
    forall v | 0 <= v < |trucks| ensures |trucks'[v]| >= 1 && RouteIds(p, StationsOf(trucks'[v])) {
      forall k | 0 <= k < |trucks'[v]| ensures IsStation(p, trucks'[v][k].station) {
        assert IsStation(p, StationsOf(trucks[v])[k]);
      }
    }
    forall v | 0 <= v < |repairs| ensures |repairs'[v]| >= 1 && RouteIds(p, RepairStations(repairs'[v])) {
      forall k | 0 <= k < |repairs'[v]| ensures IsStation(p, repairs'[v][k].station) {
        assert IsStation(p, RepairStations(repairs[v])[k]);
      }
    }
  }

  /** The replay of a fleet's stamped schedules. */
  function Outcome(p: Params, inst: Instance, trucks: seq<seq<TruckEntry>>, repairs: seq<seq<RepairEntry>>): ReplayState
    requires |inst.networkInfo| == p.nbClients + 1 && TruckPlansOk(p, trucks) && RepairPlansOk(p, repairs)
  {
    Replay(inst, Start(inst), Merged(p, inst, trucks, repairs))
  }

  /** The evaluation the check leaves behind: the fleet's totals, the replay's verdict and, if feasible, the dissatisfaction. */
  function Checked(p: Params, inst: Instance, e: Eval, trucks: Tour, repairs: Tour, r: ReplayState): Eval
    requires |inst.networkInfo| == p.nbClients + 1 && Sized(inst, r)
  {
    var list := if r.feasible then DissatList(inst, r.usable, r.broken, p.nbClients) else [];
    e.(emission := trucks.emission, routeTRK := trucks.drive, operationTimeTRK := trucks.busy,
       routeRPM := repairs.drive, operationTimeRPM := repairs.busy,
       isFeasible := r.feasible, capacityExcess := r.excess, dissat := SumReal(list), dissatisfaction := list)
  }

  /**
   * feasibilityCheckOfSolution (Individual.cpp:337-463): times every
   * schedule, replays the stops after each vehicle's first in order of
   * arrival, and records the totals, the verdict and the dissatisfaction.
   * The other fields of the evaluation are kept.
   */
  method FeasibilityCheck(p: Params, inst: Instance, e: Eval, trucks: seq<seq<TruckEntry>>, repairs: seq<seq<RepairEntry>>)
    returns (e': Eval, trucks': seq<seq<TruckEntry>>, repairs': seq<seq<RepairEntry>>)
    requires ValidParams(p) && |inst.networkInfo| == p.nbClients + 1
    requires TruckPlansOk(p, trucks) && RepairPlansOk(p, repairs)
    ensures |trucks'| == |trucks| && forall v :: 0 <= v < |trucks| ==> trucks'[v] == StampedTruck(p, inst, trucks[v])
    ensures |repairs'| == |repairs| && forall v :: 0 <= v < |repairs| ==> repairs'[v] == StampedRepair(p, inst, repairs[v])
    ensures TruckPlansOk(p, trucks') && RepairPlansOk(p, repairs')
    ensures e' == Checked(p, inst, e, TrucksTotal(p, inst, trucks), RepairsTotal(p, inst, repairs),
                          Outcome(p, inst, trucks', repairs'))
  {
    var truckEvents, truckTotal, repairEvents, repairTotal;
    trucks', truckEvents, truckTotal := StampTrucks(p, inst, trucks);
    repairs', repairEvents, repairTotal := StampRepairs(p, inst, repairs);
    StampedPlansOk(p, inst, trucks, repairs, trucks', repairs');
    var events := Merged(p, inst, trucks', repairs');
    var usable, broken, excess, feasible := ReplayEvents(inst, events);
    var dissat, list := 0.0, [];
    if feasible {
      dissat, list := CollectDissat(p, inst, usable, broken);
    }
    e' := e.(emission := truckTotal.emission, routeTRK := truckTotal.drive, operationTimeTRK := truckTotal.busy,
             routeRPM := repairTotal.drive, operationTimeRPM := repairTotal.busy,
             isFeasible := feasible, capacityExcess := excess, dissat := dissat, dissatisfaction := list);
  }

  /**
   * What the check promises about a fleet: the solution is feasible exactly
   * when no stop took its station out of bounds and exactly when there is no
   * capacity excess; a feasible solution from in-bounds initial stock is
   * charged the dissatisfaction of every station at its final stock, and an
   * infeasible one none.
   */
  lemma CheckedVerdict(p: Params, inst: Instance, e: Eval, tt: Tour, rt: Tour,
                       trucks: seq<seq<TruckEntry>>, repairs: seq<seq<RepairEntry>>)
    requires |inst.networkInfo| == p.nbClients + 1 && TruckPlansOk(p, trucks) && RepairPlansOk(p, repairs)
    ensures Checked(p, inst, e, tt, rt, Outcome(p, inst, trucks, repairs)).capacityExcess >= 0
    ensures Checked(p, inst, e, tt, rt, Outcome(p, inst, trucks, repairs)).isFeasible <==>
      Checked(p, inst, e, tt, rt, Outcome(p, inst, trucks, repairs)).capacityExcess == 0
    ensures Checked(p, inst, e, tt, rt, Outcome(p, inst, trucks, repairs)).isFeasible <==>
      forall k :: 0 <= k < |Merged(p, inst, trucks, repairs)| ==>
        !Violates(inst, Replay(inst, Start(inst), Merged(p, inst, trucks, repairs)[..k]), Merged(p, inst, trucks, repairs)[k])
    ensures !Checked(p, inst, e, tt, rt, Outcome(p, inst, trucks, repairs)).isFeasible ==>
      Checked(p, inst, e, tt, rt, Outcome(p, inst, trucks, repairs)).dissat == 0.0
    ensures InitialStockOk(inst, p) && Checked(p, inst, e, tt, rt, Outcome(p, inst, trucks, repairs)).isFeasible ==>
      |Checked(p, inst, e, tt, rt, Outcome(p, inst, trucks, repairs)).dissatisfaction| == p.nbClients
  {
    var events := Merged(p, inst, trucks, repairs);
    ExcessGrows(inst, Start(inst), events);
    FeasibleIffNoViolation(inst, Start(inst), events);
    var r := Replay(inst, Start(inst), events);
    if InitialStockOk(inst, p) {
      FeasibleEndsInBounds(inst, Start(inst), events);
      if r.feasible {
        DissatListFull(inst, r.usable, r.broken, p.nbClients);
      }
    }
  }

  /** The objective (Individual.cpp:465-471). */
  function ObjVal(e: Eval, penaltyCapacity: real): real {
    2.0 * e.dissat + 0.06 * e.emission
    + 0.00000001 * (e.routeTRK + e.routeRPM + e.operationTimeTRK + e.operationTimeRPM)
    + penaltyCapacity * e.capacityExcess as real
  }

  /** solutionEvaluation: records the objective and keeps every other field. */
  function SolutionEvaluation(e: Eval, penaltyCapacity: real): (r: Eval)
    ensures r.(objVal := e.objVal) == e
  {
    e.(objVal := ObjVal(e, penaltyCapacity))
  }

  /**
   * The penalty only charges infeasibility: the objective of a solution with
   * no capacity excess does not depend on the penalty, and with a positive
   * penalty more excess costs strictly more.
   */
  lemma PenaltyChargesExcess(e: Eval, penalty: real, penalty': real, excess: int)
    ensures e.capacityExcess == 0 ==> ObjVal(e, penalty) == ObjVal(e, penalty')
    ensures penalty > 0.0 && e.capacityExcess < excess ==>
      ObjVal(e, penalty) < ObjVal(e.(capacityExcess := excess), penalty)
  {
    if penalty > 0.0 && e.capacityExcess < excess {
      assert penalty * e.capacityExcess as real < penalty * excess as real;
    }
  }
}
