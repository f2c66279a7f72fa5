/*
 * The records the schedule compiler, the evaluator and the population pass
 * around: truck and repairman schedule entries (RepositionScheme.h), the
 * "unsatisfied" and "extra time" association-list entries (helpers/Utils.h),
 * the evaluation of a solution and the solution itself (Individual.h).
 *
 * The program keeps schedule entries behind shared pointers and tells truck
 * from repairman entries by a downcast; here an entry is a value and the two
 * kinds form a tagged union.
 */
module Schemes {

  /** One stop of a truck: what it loads and unloads there and what it carries when it leaves. */
  datatype TruckEntry = TruckEntry(
    station: int,
    arrivingTime: real,
    loadU: int,
    loadB: int,
    unloadU: int,
    unloadB: int,
    truckUQ: int,
    truckBQ: int)

  /** One stop of a repairman: how many broken bikes are repaired there. */
  datatype RepairEntry = RepairEntry(station: int, arrivingTime: real, repair: int)

  /** A stop of either kind, as merged and replayed by the evaluator. */
  datatype Event = TruckStop(t: TruckEntry) | RepairStop(r: RepairEntry)

  /** An entry of an "unsatisfied" list: the station, the schedule index it was recorded at, the bikes left over and its priority. */
  datatype UnsatRecord = UnsatRecord(station: int, idx: int, surplus: int, priority: real)

  /** An entry of the "extra time" list: the station and the operating time booked for it. */
  datatype ExtraRecord = ExtraRecord(station: int, time: real)

  /** The evaluation of a solution. */
  datatype Eval = Eval(
    capacityExcess: int,
    isFeasible: bool,
    dissat: real,
    emission: real,
    objVal: real,
    biasedFitness: real,
    similarity: int,
    rankSim: int,
    rankFit: int,
    routeTRK: real,
    routeRPM: real,
    operationTimeTRK: real,
    operationTimeRPM: real,
    dissatisfaction: seq<real>)

  /** The evaluation a fresh solution starts from. */
  function InitialEval(): (e: Eval)
    ensures e.capacityExcess == 0 && e.isFeasible && e.dissat == 0.0 && e.objVal == 0.0
  {
    Eval(0, true, 0.0, 0.0, 0.0, 0.0, 0, 0, 0, 0.0, 0.0, 0.0, 0.0, [0.0])
  }

  /** A solution: one route and one schedule per repairman and per truck. */
  datatype Individual = Individual(
    eval: Eval,
    chromRPM: seq<seq<int>>,
    chromTRK: seq<seq<int>>,
    truckPlans: seq<seq<TruckEntry>>,
    repairPlans: seq<seq<RepairEntry>>)

  /** Two solutions are the same when their routes are (Individual.h:65-69). */
  predicate SameRoutes(a: Individual, b: Individual) {
    a.chromRPM == b.chromRPM && a.chromTRK == b.chromTRK
  }

  /** Key functions for the association lists. */
  function UnsatStation(e: UnsatRecord): int { e.station }

  function ExtraStation(e: ExtraRecord): int { e.station }
}
