/*
 * Problem data: stations (Station.h), the run parameters (Params.h) and the
 * instance tables (Instance.h). Reading them from files is not modelled; the
 * distance, dissatisfaction and priority tables are total functions.
 */
module Instances {

  /** One station of the network. Index 0 of the station table is the depot. */
  datatype Station = Station(id: int, usableBike: int, brokenBike: int, targetUsable: int, capacity: int)

  /**
   * Problem size, vehicle data and algorithm settings. `penaltyCapacity`,
   * which the search adapts, lives with the population instead.
   */
  datatype Params = Params(
    nbClients: nat,
    nbVehicles: nat,
    nbRepairmen: nat,
    vehicleCapacity: int,
    repairTime: int,
    loadingTime: int,
    timeBudget: real,
    itEDU: int,
    mu: int,
    lambda: int,
    timeLimit: real,
    nbIterPenaltyManagement: int,
    targetFeasible: real,
    nbIterNoImp: int)

  /**
   * The instance tables. `dist(i, j)` is dist_mtx[i][j]; `dissat(s, u, b)` is
   * dissatTable[s][u][b]; `priority(s, u, b)` and `priorityR(s, u, b)` are
   * priorityTable[s-1][u][b] and priorityTableR[s-1][u][b] (Utils.cpp:12-18).
   */
  datatype Instance = Instance(
    networkInfo: seq<Station>,
    dist: (int, int) -> real,
    dissat: (int, int, int) -> real,
    priority: (int, int, int) -> real,
    priorityR: (int, int, int) -> real)

  /** Positive unit times and a non-negative vehicle capacity. */
  predicate ValidParams(p: Params) {
    p.repairTime > 0 && p.loadingTime > 0 && p.vehicleCapacity >= 0
  }

  /** A station id, depot included. */
  predicate IsStation(p: Params, s: int) {
    0 <= s <= p.nbClients
  }

  /** Every entry of every route is a station id. */
  predicate RouteIds(p: Params, route: seq<int>) {
    forall k :: 0 <= k < |route| ==> IsStation(p, route[k])
  }

  /**
   * The instance describes `nbClients` stations besides the depot, each with
   * a target between 0 and its capacity, and priority tables without
   * negative entries. The depot's INT_MAX entries are not relied upon:
   * every use of them is special-cased.
   */
  ghost predicate ValidInstance(inst: Instance, p: Params) {
    && |inst.networkInfo| == p.nbClients + 1
    && (forall s :: 1 <= s <= p.nbClients ==> 0 <= inst.networkInfo[s].targetUsable <= inst.networkInfo[s].capacity)
    && (forall s, u, b :: inst.priority(s, u, b) >= 0.0)
    && (forall s, u, b :: inst.priorityR(s, u, b) >= 0.0)
  }

  /** Stock levels of every non-depot station within [0, capacity]. */
  predicate InventoryOk(inst: Instance, p: Params, usable: seq<int>, broken: seq<int>)
    requires |inst.networkInfo| == p.nbClients + 1
  {
    && |usable| == p.nbClients + 1 && |broken| == p.nbClients + 1
    && forall s :: 1 <= s <= p.nbClients ==>
         0 <= usable[s] && 0 <= broken[s] && usable[s] + broken[s] <= inst.networkInfo[s].capacity
  }

  /** Target of a non-depot station. */
  function Target(inst: Instance, s: int): int
    requires 0 < s < |inst.networkInfo|
  {
    inst.networkInfo[s].targetUsable
  }

  /** Capacity of a non-depot station. */
  function Capacity(inst: Instance, s: int): int
    requires 0 < s < |inst.networkInfo|
  {
    inst.networkInfo[s].capacity
  }

  /** The stock vectors the program starts from: the depot slot is 0 and station s holds its initial stock. */
  function InitialUsable(inst: Instance): (u: seq<int>)
    ensures |u| == |inst.networkInfo|
    ensures forall s :: 0 < s < |u| ==> u[s] == inst.networkInfo[s].usableBike
  {
    seq(|inst.networkInfo|, s requires 0 <= s < |inst.networkInfo| => if s == 0 then 0 else inst.networkInfo[s].usableBike)
  }

  function InitialBroken(inst: Instance): (b: seq<int>)
    ensures |b| == |inst.networkInfo|
    ensures forall s :: 0 < s < |b| ==> b[s] == inst.networkInfo[s].brokenBike
  {
    seq(|inst.networkInfo|, s requires 0 <= s < |inst.networkInfo| => if s == 0 then 0 else inst.networkInfo[s].brokenBike)
  }

  /** The initial stock of every non-depot station lies within its capacity. */
  predicate InitialStockOk(inst: Instance, p: Params)
    requires |inst.networkInfo| == p.nbClients + 1
  {
    InventoryOk(inst, p, InitialUsable(inst), InitialBroken(inst))
  }
}
