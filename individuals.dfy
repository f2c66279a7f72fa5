/*
 * Building a solution from its routes (Individual.cpp:38-93, 271-335): the
 * routes are normalised, compiled into schedules repairman by repairman and
 * truck by truck, stops that move no bike are filtered out (recompiling from
 * the stock snapshot when there were any), the schedules are amended, the
 * routes are given depot ends, and the solution is checked and evaluated.
 *
 * The stock vectors the program passes by reference are values threaded
 * through the methods here, and a solution is a value.
 */
module Individuals {
  import opened Instances
  import opened Schemes
  import opened Routes
  import opened TruckAssignment
  import opened TruckScheme
  import opened RepairAssignment
  import opened RepairAmendment
  import opened TruckAmendment
  import opened Evaluation

  /** The route-given constructor removes every interior depot of a repairman route longer than two (Individual.cpp:42-46). */
  method StripInteriorDepots(routes: seq<seq<int>>) returns (r: seq<seq<int>>)
    ensures |r| == |routes|
    ensures forall i :: 0 <= i < |r| && |routes[i]| > 2 ==> r[i] == DropInteriorDepots(routes[i])
    ensures forall i :: 0 <= i < |r| && |routes[i]| <= 2 ==> r[i] == routes[i]
    ensures forall i :: 0 <= i < |r| ==> NoInteriorDepot(r[i]) || |routes[i]| <= 2
  {
    r := routes;
    for i := 0 to |r|
      invariant |r| == |routes|
      invariant forall j :: 0 <= j < i && |routes[j]| > 2 ==> r[j] == DropInteriorDepots(routes[j])
      invariant forall j :: 0 <= j < i && |routes[j]| <= 2 ==> r[j] == routes[j]
      invariant forall j :: i <= j < |r| ==> r[j] == routes[j]
    {
      if |r[i]| > 2 {
        r := r[i := DropInteriorDepots(r[i])];
      }
    }
  }

  /** The entries strictly between the first and the last one; none when there are fewer than two. */
  function Inner<T>(plan: seq<T>): (r: seq<T>)
    ensures |plan| >= 2 ==> r == plan[1..|plan| - 1]
    ensures |plan| < 2 ==> r == []
  {
    if |plan| >= 2 then plan[1..|plan| - 1] else []
  }

  // ---------------------------------------------------------------------
  // Repairman stops that repair nothing (Individual.cpp:308-335)
  // ---------------------------------------------------------------------

  /** The stations, in order, of the entries that repair at least one bike. */
  function Repairing(entries: seq<RepairEntry>): seq<int> {
    if entries == [] then []
    else
      var last := entries[|entries| - 1];
      Repairing(entries[..|entries| - 1]) + (if last.repair == 0 then [] else [last.station])
  }

  /** Some interior entry of the schedule repairs nothing. */
  predicate HasIdleStop(plan: seq<RepairEntry>) {
    exists k :: 1 <= k < |plan| - 1 && plan[k].repair == 0
  }

  /** The route the program rebuilds from a repairman schedule: the depot, the interior stations that repair something, the depot. */
  function RepairRoute(plan: seq<RepairEntry>): seq<int> {
    [0] + Repairing(Inner(plan)) + [0]
  }

  /** The filter keeps a sub-multiset of the stations. */
  lemma {:induction false} RepairingSub(entries: seq<RepairEntry>)
    ensures multiset(Repairing(entries)) <= multiset(RepairStations(entries))
    ensures |Repairing(entries)| <= |entries|
  {
    if entries != [] {
      var front, last := entries[..|entries| - 1], entries[|entries| - 1];
      RepairingSub(front);
      assert RepairStations(entries) == RepairStations(front) + [last.station];
    }
  }

  /** An entry that repairs nothing is dropped, so the filtered route is shorter. */
  lemma {:induction false} RepairingDrops(entries: seq<RepairEntry>, k: int)
    requires 0 <= k < |entries| && entries[k].repair == 0
    ensures |Repairing(entries)| < |entries|
  {
    var front := entries[..|entries| - 1];
    if k < |entries| - 1 {
      assert front[k].repair == 0;
      RepairingDrops(front, k);
    } else {
      RepairingSub(front);
    }
  }

  /** When every entry repairs something, the filter keeps every station. */
  lemma {:induction false} RepairingKeepsAll(entries: seq<RepairEntry>)
    requires forall k :: 0 <= k < |entries| ==> entries[k].repair != 0
    ensures Repairing(entries) == RepairStations(entries)
  {
    if entries != [] {
      var front, last := entries[..|entries| - 1], entries[|entries| - 1];
      assert forall k :: 0 <= k < |front| ==> front[k].repair != 0 by {
        forall k | 0 <= k < |front| ensures front[k].repair != 0 {
          assert front[k] == entries[k];
        }
      }
      RepairingKeepsAll(front);
      assert RepairStations(entries) == RepairStations(front) + [last.station];
    }
  }

  /** When the depot entries repair nothing, the filtered route never visits the depot. */
  lemma {:induction false} RepairingSkipsDepot(entries: seq<RepairEntry>)
    requires forall k :: 0 <= k < |entries| && entries[k].station == 0 ==> entries[k].repair == 0
    ensures 0 !in Repairing(entries)
  {
    if entries != [] {
      var front := entries[..|entries| - 1];
      assert forall k :: 0 <= k < |front| && front[k].station == 0 ==> front[k].repair == 0 by {
        forall k | 0 <= k < |front| && front[k].station == 0 ensures front[k].repair == 0 {
          assert front[k] == entries[k];
        }
      }
      RepairingSkipsDepot(front);
    }
  }

  /** The rebuilt route is the schedule's own route exactly when no interior stop is idle. */
  lemma RepairRouteSame(plan: seq<RepairEntry>)
    requires |plan| >= 2 && plan[0].station == 0 && plan[|plan| - 1].station == 0
    ensures RepairRoute(plan) == RepairStations(plan) <==> !HasIdleStop(plan)
  {
    var inner := plan[1..|plan| - 1];
    assert RepairRoute(plan) == [0] + Repairing(inner) + [0];
    assert RepairStations(plan) == [0] + RepairStations(inner) + [0];
    if HasIdleStop(plan) {
      var k :| 1 <= k < |plan| - 1 && plan[k].repair == 0;
      assert |Repairing(inner)| < |inner| by {
        assert inner[k - 1].repair == 0;
        RepairingDrops(inner, k - 1);
      }
    } else {
      assert forall k :: 0 <= k < |inner| ==> inner[k].repair != 0 by {
        forall k | 0 <= k < |inner| ensures inner[k].repair != 0 {
          assert inner[k] == plan[k + 1];
        }
      }
      RepairingKeepsAll(inner);
    }
  }

  /** When the interior depot entries repair nothing, the rebuilt route visits the depot only at its ends. */
  lemma RepairRouteShape(plan: seq<RepairEntry>)
    requires |plan| >= 2
    requires forall k :: 1 <= k < |plan| - 1 && plan[k].station == 0 ==> plan[k].repair == 0
    ensures DepotEnded(RepairRoute(plan)) && NoInteriorDepot(RepairRoute(plan))
  {
    var inner := plan[1..|plan| - 1];
    var r := RepairRoute(plan);
    assert r == [0] + Repairing(inner) + [0];
    assert 0 !in Repairing(inner) by {
      assert forall k :: 0 <= k < |inner| && inner[k].station == 0 ==> inner[k].repair == 0 by {
        forall k | 0 <= k < |inner| && inner[k].station == 0 ensures inner[k].repair == 0 {
          assert inner[k] == plan[k + 1];
        }
      }
      RepairingSkipsDepot(inner);
    }
    forall k | 0 < k < |r| - 1 ensures r[k] != 0 {
      assert r[k] == Repairing(inner)[k - 1];
    }
  }

  /** The rebuilt route draws its stations from the schedule (for a schedule from and to the depot). */
  lemma RepairRouteSub(plan: seq<RepairEntry>)
    requires |plan| >= 2 && plan[0].station == 0 && plan[|plan| - 1].station == 0
    ensures multiset(RepairRoute(plan)) <= multiset(RepairStations(plan))
  {
    var inner := plan[1..|plan| - 1];
    var kept, all := Repairing(inner), RepairStations(inner);
    assert RepairRoute(plan) == [0] + kept + [0];
    assert RepairStations(plan) == [0] + all + [0];
    assert multiset(kept) <= multiset(all) by {
      RepairingSub(inner);
    }
    assert multiset([0] + kept + [0]) == multiset{0, 0} + multiset(kept);
    assert multiset([0] + all + [0]) == multiset{0, 0} + multiset(all);
  }

  /**
   * The rebuilt route is the schedule's own route exactly when no interior
   * stop is idle (for a schedule from and to the depot), and it never visits
   * the depot in between.
   */
  lemma RepairRouteFacts(plan: seq<RepairEntry>)
    requires |plan| >= 2 && plan[0].station == 0 && plan[|plan| - 1].station == 0
    requires forall k :: 1 <= k < |plan| - 1 && plan[k].station == 0 ==> plan[k].repair == 0
    ensures RepairRoute(plan) == RepairStations(plan) <==> !HasIdleStop(plan)
    ensures DepotEnded(RepairRoute(plan)) && NoInteriorDepot(RepairRoute(plan))
    ensures multiset(RepairRoute(plan)) <= multiset(RepairStations(plan))
  {
    RepairRouteSame(plan);
    RepairRouteShape(plan);
    RepairRouteSub(plan);
  }

  /** The loop of Individual.cpp:317-325: the rebuilt route, and whether an interior stop repaired nothing. */
  /** Some entry strictly between the first and the `j`-th repairs nothing. */
  ghost predicate IdleBefore(plan: seq<RepairEntry>, j: int) {
    exists k :: 1 <= k < j && k < |plan| && plan[k].repair == 0
  }

  /** Scanning one more entry extends the filtered route and the idle flag by that entry. */
  lemma {:induction false} RepairScanStep(plan: seq<RepairEntry>, j: int)
    requires 1 <= j < |plan|
    ensures Repairing(plan[1..j + 1]) == Repairing(plan[1..j]) + (if plan[j].repair == 0 then [] else [plan[j].station])
    ensures IdleBefore(plan, j + 1) <==> IdleBefore(plan, j) || plan[j].repair == 0
  {
    assert plan[1..j + 1][..j - 1] == plan[1..j];
  }

  method FilterRepairStops(plan: seq<RepairEntry>) returns (route: seq<int>, idle: bool)
    requires |plan| >= 1
    ensures route == RepairRoute(plan)
    ensures idle <==> HasIdleStop(plan)
  {
    route := [0];
    idle := false;
    var j := 1;
    while j < |plan| - 1
      invariant 1 <= j <= |plan| && (|plan| >= 2 ==> j <= |plan| - 1)
      invariant route == [0] + Repairing(plan[1..j])
      invariant idle <==> IdleBefore(plan, j)
    {
      RepairScanStep(plan, j);
      if plan[j].repair == 0 {
        idle := true;
      } else {
        route := route + [plan[j].station];
      }
      j := j + 1;
    }
    assert plan[1..j] == Inner(plan);
    route := route + [0];
  }

  /**
   * One repairman of greedyAssignmentForRepairman (Individual.cpp:314-333).
   * The schedule is compiled from the current stock; its route is rebuilt
   * without idle stops; if there were any, the stock goes back to the
   * snapshot taken before the first repairman and the rebuilt route is
   * compiled again. `first` is the first compilation.
   */
  method RepairmanRoute(p: Params, inst: Instance, route: seq<int>, usable: seq<int>, broken: seq<int>,
                        snapU: seq<int>, snapB: seq<int>)
    returns (route': seq<int>, plan: seq<RepairEntry>, u: seq<int>, b: seq<int>, recompiled: bool,
             first: seq<RepairEntry>)
    requires ValidParams(p) && ValidInstance(inst, p)
    requires InventoryOk(inst, p, usable, broken) && InventoryOk(inst, p, snapU, snapB)
    requires RouteIds(p, route) && DepotEnded(route)
    requires forall s :: 0 <= s <= p.nbClients ==> usable[s] + broken[s] == snapU[s] + snapB[s]
    ensures recompiled <==> HasIdleStop(first)
    ensures !recompiled ==> plan == first && route' == RepairStations(first) == RepairRoute(first)
    ensures multiset(route') <= multiset(RepairRoute(first)) && multiset(RepairStations(first)) <= multiset(route)
    ensures multiset(route') <= multiset(route)
    ensures DepotEnded(route') && RouteIds(p, route') && RepairStations(plan) == route'
    ensures InventoryOk(inst, p, u, b)
    ensures forall s :: 0 <= s <= p.nbClients ==> u[s] + b[s] == snapU[s] + snapB[s]
  {
    var adjusted;
    first, adjusted, u, b := CompileRepairman(p, inst, route, usable, broken);
    assert multiset(RepairRoute(first)) <= multiset(adjusted) && DepotEnded(RepairRoute(first))
      && (RepairRoute(first) == RepairStations(first) <==> !HasIdleStop(first)) by {
      FilterRepairFirst(p, first, adjusted);
    }
    var rebuilt;
    rebuilt, recompiled := FilterRepairStops(first);
    if recompiled {
      assert RouteIds(p, rebuilt) by {
        RouteIdsSub(p, rebuilt, adjusted);
      }
      plan, route', u, b := CompileRepairman(p, inst, rebuilt, snapU, snapB);
    } else {
      plan, route' := first, adjusted;
    }
  }

  /** assignRepairmanScheme, with its schedule read as a route: the schedule runs along the adjusted route. */
  method CompileRepairman(p: Params, inst: Instance, route: seq<int>, usable: seq<int>, broken: seq<int>)
    returns (plan: seq<RepairEntry>, adjusted: seq<int>, u: seq<int>, b: seq<int>)
    requires ValidParams(p) && ValidInstance(inst, p) && InventoryOk(inst, p, usable, broken)
    requires RouteIds(p, route) && DepotEnded(route)
    ensures RepairStations(plan) == adjusted && DepotEnded(adjusted) && RouteIds(p, adjusted)
    ensures multiset(adjusted) <= multiset(route)
    ensures forall k :: 1 <= k < |plan| && adjusted[k] == 0 ==> plan[k].repair == 0
    ensures InventoryOk(inst, p, u, b)
    ensures forall s :: 0 <= s <= p.nbClients ==> u[s] + b[s] == usable[s] + broken[s]
  {
    plan, adjusted, u, b := AssignRepairmanScheme(p, inst, route, usable, broken);
    assert RepairStations(plan) == adjusted;
  }

  /** What the first compilation gives the filter: a depot-ended schedule on a sub-multiset of the route, idle at interior depots. */
  lemma FilterRepairFirst(p: Params, first: seq<RepairEntry>, adjusted: seq<int>)
    requires |first| == |adjusted| && DepotEnded(adjusted) && RepairStations(first) == adjusted
    requires forall k :: 1 <= k < |first| && adjusted[k] == 0 ==> first[k].repair == 0
    ensures RepairRoute(first) == RepairStations(first) <==> !HasIdleStop(first)
    ensures DepotEnded(RepairRoute(first)) && NoInteriorDepot(RepairRoute(first))
    ensures multiset(RepairRoute(first)) <= multiset(adjusted)
  {
    RepairRouteFacts(first);
  }

  /** A sub-multiset of a route of station ids holds station ids only. */
  lemma RouteIdsSub(p: Params, small: seq<int>, big: seq<int>)
    requires multiset(small) <= multiset(big) && RouteIds(p, big)
    ensures RouteIds(p, small)
  {
    forall k | 0 <= k < |small| ensures IsStation(p, small[k]) {
      assert small[k] in multiset(small);
      assert small[k] in multiset(big);
      var j :| 0 <= j < |big| && big[j] == small[k];
    }
  }

  /** The outcome of one repairman: a depot-ended route of station ids, drawn from the given one, and the schedule on it. */
  predicate RepairmanOk(p: Params, route: seq<int>, route': seq<int>, plan: seq<RepairEntry>) {
    DepotEnded(route') && RouteIds(p, route') && RepairStations(plan) == route' && multiset(route') <= multiset(route)
  }

  /** Every repairman so far has its outcome. */
  predicate RepairmenOk(p: Params, routes: seq<seq<int>>, routes': seq<seq<int>>, plans: seq<seq<RepairEntry>>) {
    |routes'| == |routes| && |plans| == |routes| && forall i :: 0 <= i < |routes| ==> RepairmanOk(p, routes[i], routes'[i], plans[i])
  }

  lemma RepairmenOkGrows(p: Params, routes: seq<seq<int>>, routes': seq<seq<int>>, plans: seq<seq<RepairEntry>>,
                         i: int, r: seq<int>, plan: seq<RepairEntry>)
    requires 0 <= i < |routes| && RepairmenOk(p, routes[..i], routes', plans) && RepairmanOk(p, routes[i], r, plan)
    ensures RepairmenOk(p, routes[..i + 1], routes' + [r], plans + [plan])
  {
    assert routes[..i + 1] == routes[..i] + [routes[i]];
  }

  /**
   * greedyAssignmentForRepairman (Individual.cpp:308-335): the repairmen in
   * turn, each from the stock the previous one left, with the snapshot taken
   * before the first one. Repairs only turn broken bikes into usable ones, so
   * every station keeps its number of bikes.
   */
  method GreedyAssignmentForRepairman(p: Params, inst: Instance, routes: seq<seq<int>>, usable: seq<int>, broken: seq<int>)
    returns (routes': seq<seq<int>>, plans: seq<seq<RepairEntry>>, u: seq<int>, b: seq<int>)
    requires ValidParams(p) && ValidInstance(inst, p) && InventoryOk(inst, p, usable, broken)
    requires forall i :: 0 <= i < |routes| ==> RouteIds(p, routes[i]) && DepotEnded(routes[i])
    ensures RepairmenOk(p, routes, routes', plans)
    ensures InventoryOk(inst, p, u, b)
    ensures forall s :: 0 <= s <= p.nbClients ==> u[s] + b[s] == usable[s] + broken[s]
  {
    routes', plans, u, b := [], [], usable, broken;
    for i := 0 to |routes|
      invariant RepairmenOk(p, routes[..i], routes', plans)
      invariant InventoryOk(inst, p, u, b)
      invariant forall s :: 0 <= s <= p.nbClients ==> u[s] + b[s] == usable[s] + broken[s]
    {
      var r, plan, u', b', recompiled, first := RepairmanRoute(p, inst, routes[i], u, b, usable, broken);
      RepairmenOkGrows(p, routes, routes', plans, i, r, plan);
      routes', plans, u, b := routes' + [r], plans + [plan], u', b';
    }
    assert routes[..|routes|] == routes;
  }

  // ---------------------------------------------------------------------
  // Truck stops that move no bike (Individual.cpp:283-306)
  // ---------------------------------------------------------------------

  /** A truck entry that loads and unloads nothing. */
  predicate ZeroStop(e: TruckEntry) {
    e.loadU == 0 && e.loadB == 0 && e.unloadU == 0 && e.unloadB == 0
  }

  /** The stations, in order, of the entries that move at least one bike. */
  function Moving(entries: seq<TruckEntry>): seq<int> {
    if entries == [] then []
    else
      var last := entries[|entries| - 1];
      Moving(entries[..|entries| - 1]) + (if ZeroStop(last) then [] else [last.station])
  }

  /** Some interior entry of the schedule moves nothing. */
  predicate HasZeroStop(plan: seq<TruckEntry>) {
    exists k :: 1 <= k < |plan| - 1 && ZeroStop(plan[k])
  }

  /** The route fixZeroLoading rebuilds: the depot, the interior stations that move something, the depot. */
  function MovingRoute(plan: seq<TruckEntry>): seq<int> {
    [0] + Moving(Inner(plan)) + [0]
  }

  lemma {:induction false} MovingSub(entries: seq<TruckEntry>)
    ensures multiset(Moving(entries)) <= multiset(StationsOf(entries))
    ensures |Moving(entries)| <= |entries|
  {
    if entries != [] {
      var front, last := entries[..|entries| - 1], entries[|entries| - 1];
      MovingSub(front);
      assert StationsOf(entries) == StationsOf(front) + [last.station];
    }
  }

  lemma {:induction false} MovingDrops(entries: seq<TruckEntry>, k: int)
    requires 0 <= k < |entries| && ZeroStop(entries[k])
    ensures |Moving(entries)| < |entries|
  {
    var front := entries[..|entries| - 1];
    if k < |entries| - 1 {
      assert front[k] == entries[k];
      MovingDrops(front, k);
    } else {
      MovingSub(front);
    }
  }

  lemma {:induction false} MovingKeepsAll(entries: seq<TruckEntry>)
    requires forall k :: 0 <= k < |entries| ==> !ZeroStop(entries[k])
    ensures Moving(entries) == StationsOf(entries)
  {
    if entries != [] {
      var front, last := entries[..|entries| - 1], entries[|entries| - 1];
      assert forall k :: 0 <= k < |front| ==> !ZeroStop(front[k]) by {
        forall k | 0 <= k < |front| ensures !ZeroStop(front[k]) {
          assert front[k] == entries[k];
        }
      }
      MovingKeepsAll(front);
      assert StationsOf(entries) == StationsOf(front) + [last.station];
    }
  }

  /** The rebuilt truck route is the schedule's own route exactly when no interior stop is idle. */
  lemma MovingRouteSame(plan: seq<TruckEntry>)
    requires |plan| >= 2 && plan[0].station == 0 && plan[|plan| - 1].station == 0
    ensures MovingRoute(plan) == StationsOf(plan) <==> !HasZeroStop(plan)
  {
    var inner := plan[1..|plan| - 1];
    assert MovingRoute(plan) == [0] + Moving(inner) + [0];
    assert StationsOf(plan) == [0] + StationsOf(inner) + [0];
    if HasZeroStop(plan) {
      var k :| 1 <= k < |plan| - 1 && ZeroStop(plan[k]);
      assert |Moving(inner)| < |inner| by {
        assert inner[k - 1] == plan[k];
        MovingDrops(inner, k - 1);
      }
    } else {
      assert forall k :: 0 <= k < |inner| ==> !ZeroStop(inner[k]) by {
        forall k | 0 <= k < |inner| ensures !ZeroStop(inner[k]) {
          assert inner[k] == plan[k + 1];
        }
      }
      MovingKeepsAll(inner);
    }
  }

  /** The rebuilt truck route starts and ends at the depot and draws its stations from the schedule. */
  lemma MovingRouteFacts(plan: seq<TruckEntry>)
    requires |plan| >= 2 && plan[0].station == 0 && plan[|plan| - 1].station == 0
    ensures MovingRoute(plan) == StationsOf(plan) <==> !HasZeroStop(plan)
    ensures DepotEnded(MovingRoute(plan))
    ensures multiset(MovingRoute(plan)) <= multiset(StationsOf(plan))
  {
    MovingRouteSame(plan);
    var inner := plan[1..|plan| - 1];
    assert MovingRoute(plan) == [0] + Moving(inner) + [0];
    assert StationsOf(plan) == [0] + StationsOf(inner) + [0];
    MovingSub(inner);
  }

  /** The find_if of Individual.cpp:287-290: is there an interior stop that moves nothing? */
  method FindZeroStop(plan: seq<TruckEntry>) returns (found: bool)
    requires |plan| >= 2
    ensures found <==> HasZeroStop(plan)
  {
    var j := 1;
    while j < |plan| - 1
      invariant 1 <= j <= |plan| - 1
      invariant forall k :: 1 <= k < j ==> !ZeroStop(plan[k])
    {
      if ZeroStop(plan[j]) {
        return true;
      }
      j := j + 1;
    }
    return false;
  }

  /** Scanning one more entry extends the filtered truck route by that entry. */
  lemma {:induction false} MovingScanStep(plan: seq<TruckEntry>, j: int)
    requires 1 <= j < |plan|
    ensures Moving(plan[1..j + 1]) == Moving(plan[1..j]) + (if ZeroStop(plan[j]) then [] else [plan[j].station])
  {
    assert plan[1..j + 1][..j - 1] == plan[1..j];
  }

  /** The loop of Individual.cpp:294-301: the route rebuilt without the stops that move nothing. */
  method FilterTruckStops(plan: seq<TruckEntry>) returns (route: seq<int>)
    requires |plan| >= 2
    ensures route == MovingRoute(plan)
  {
    route := [0];
    var j := 1;
    while j < |plan| - 1
      invariant 1 <= j <= |plan| - 1
      invariant route == [0] + Moving(plan[1..j])
    {
      MovingScanStep(plan, j);
      if !ZeroStop(plan[j]) {
        route := route + [plan[j].station];
      }
      j := j + 1;
    }
    route := route + [0];
  }

  /** The outcome of one truck: a depot-ended route of station ids, drawn from the given one, and a consistent schedule on it. */
  predicate TruckOk(p: Params, route: seq<int>, route': seq<int>, plan: seq<TruckEntry>) {
    DepotEnded(route') && RouteIds(p, route') && StationsOf(plan) == route' && PlanOk(plan, p.vehicleCapacity)
    && multiset(route') <= multiset(route)
  }

  /**
   * fixZeroLoading (Individual.cpp:283-306): when an interior stop of the
   * freshly compiled schedule moves nothing, the route is rebuilt without
   * such stops, the stock goes back to the snapshot and the route is
   * compiled again; otherwise nothing changes.
   */
  method FixZeroLoading(p: Params, inst: Instance, snapU: seq<int>, snapB: seq<int>, usable: seq<int>, broken: seq<int>,
                        route: seq<int>, plan: seq<TruckEntry>)
    returns (route': seq<int>, u: seq<int>, b: seq<int>, plan': seq<TruckEntry>, fixed: bool)
    requires ValidParams(p) && ValidInstance(inst, p)
    requires |snapU| == |snapB| == |usable| == |broken| == p.nbClients + 1
    requires StockOk(p, inst, snapU, snapB) && StockOk(p, inst, usable, broken)
    requires DepotEnded(route) && RouteIds(p, route) && StationsOf(plan) == route && PlanOk(plan, p.vehicleCapacity)
    ensures fixed <==> HasZeroStop(plan)
    ensures !fixed ==> route' == route && u == usable && b == broken && plan' == plan
    ensures multiset(route') <= multiset(MovingRoute(plan)) && TruckOk(p, route, route', plan')
    ensures |u| == |b| == p.nbClients + 1 && StockOk(p, inst, u, b)
  {
    MovingRouteFacts(plan);
    fixed := FindZeroStop(plan);
    if fixed {
      var rebuilt := FilterTruckStops(plan);
      assert RouteIds(p, rebuilt) by {
        RouteIdsSub(p, rebuilt, route);
      }
      plan', route', u, b := AssignTruckScheme(p, inst, rebuilt, snapU, snapB);
    } else {
      route', u, b, plan' := route, usable, broken, plan;
    }
  }

  /** Every truck so far has its outcome. */
  predicate TrucksOk(p: Params, routes: seq<seq<int>>, routes': seq<seq<int>>, plans: seq<seq<TruckEntry>>) {
    |routes'| == |routes| && |plans| == |routes| && forall i :: 0 <= i < |routes| ==> TruckOk(p, routes[i], routes'[i], plans[i])
  }

  lemma TrucksOkGrows(p: Params, routes: seq<seq<int>>, routes': seq<seq<int>>, plans: seq<seq<TruckEntry>>,
                      i: int, r: seq<int>, plan: seq<TruckEntry>)
    requires 0 <= i < |routes| && TrucksOk(p, routes[..i], routes', plans) && TruckOk(p, routes[i], r, plan)
    ensures TrucksOk(p, routes[..i + 1], routes' + [r], plans + [plan])
  {
    assert routes[..i + 1] == routes[..i] + [routes[i]];
  }

  /**
   * greedyAssignmentForTrucks (Individual.cpp:271-281): the trucks in turn,
   * each compiled from the stock the previous one left and then fixed, with
   * the snapshot taken before the first truck.
   */
  method GreedyAssignmentForTrucks(p: Params, inst: Instance, routes: seq<seq<int>>, usable: seq<int>, broken: seq<int>)
    returns (routes': seq<seq<int>>, plans: seq<seq<TruckEntry>>, u: seq<int>, b: seq<int>)
    requires ValidParams(p) && ValidInstance(inst, p)
    requires |usable| == |broken| == p.nbClients + 1 && StockOk(p, inst, usable, broken)
    requires forall i :: 0 <= i < |routes| ==> RouteIds(p, routes[i]) && DepotEnded(routes[i])
    ensures TrucksOk(p, routes, routes', plans)
    ensures |u| == |b| == p.nbClients + 1 && StockOk(p, inst, u, b)
  {
    routes', plans, u, b := [], [], usable, broken;
    for i := 0 to |routes|
      invariant TrucksOk(p, routes[..i], routes', plans)
      invariant |u| == |b| == p.nbClients + 1 && StockOk(p, inst, u, b)
    {
      var plan, adjusted, u1, b1 := AssignTruckScheme(p, inst, routes[i], u, b);
      var r, u2, b2, plan', fixed := FixZeroLoading(p, inst, usable, broken, u1, b1, adjusted, plan);
      TrucksOkGrows(p, routes, routes', plans, i, r, plan');
      routes', plans, u, b := routes' + [r], plans + [plan'], u2, b2;
    }
    assert routes[..|routes|] == routes;
  }

  // ---------------------------------------------------------------------
  // Amendments, depot ends and evaluation (Individual.cpp:53-93)
  // ---------------------------------------------------------------------

  /** Some entry of some schedule is at station x. */
  predicate Scheduled(plans: seq<seq<RepairEntry>>, x: int) {
    exists v, k :: 0 <= v < |plans| && 0 <= k < |plans[v]| && plans[v][k].station == x
  }

  /** The station set of Individual.cpp:65-70: every station some repairman schedule visits. */
  method CollectRepairStations(plans: seq<seq<RepairEntry>>) returns (visited: set<int>)
    ensures forall x :: x in visited <==> Scheduled(plans, x)
  {
    visited := {};
    for v := 0 to |plans|
      invariant forall x :: x in visited <==> Scheduled(plans[..v], x)
    {
      for k := 0 to |plans[v]|
        invariant forall x :: x in visited <==>
          Scheduled(plans[..v], x) || exists j :: 0 <= j < k && plans[v][j].station == x
      {
        visited := visited + {plans[v][k].station};
      }
      forall x ensures x in visited <==> Scheduled(plans[..v + 1], x) {
        if x in visited && !Scheduled(plans[..v], x) {
          var j :| 0 <= j < |plans[v]| && plans[v][j].station == x;
          assert plans[..v + 1][v][j].station == x;
        }
        if Scheduled(plans[..v + 1], x) {
          var w, j :| 0 <= w < v + 1 && 0 <= j < |plans[..v + 1][w]| && plans[..v + 1][w][j].station == x;
          if w < v {
            assert plans[..v][w][j].station == x;
          }
        }
      }
    }
    assert plans[..|plans|] == plans;
  }

  /** What the amendment keeps of one truck schedule: its stations, its consistency and its time budget. */
  ghost predicate TruckAmended(p: Params, inst: Instance, plan: seq<TruckEntry>, plan': seq<TruckEntry>) {
    && ValidParams(p)
    && StationsOf(plan') == StationsOf(plan)
    && (Carried(plan, p.vehicleCapacity) ==> Carried(plan', p.vehicleCapacity))
    && (TruckTime(p, inst, plan) <= p.timeBudget ==> TruckTime(p, inst, plan') <= p.timeBudget)
  }

  ghost predicate TrucksAmended(p: Params, inst: Instance, plans: seq<seq<TruckEntry>>, plans': seq<seq<TruckEntry>>) {
    |plans'| == |plans| && forall v :: 0 <= v < |plans| ==> TruckAmended(p, inst, plans[v], plans'[v])
  }

  lemma TrucksAmendedGrows(p: Params, inst: Instance, plans: seq<seq<TruckEntry>>, plans': seq<seq<TruckEntry>>,
                           v: int, q: seq<TruckEntry>)
    requires 0 <= v < |plans| && TrucksAmended(p, inst, plans[..v], plans') && TruckAmended(p, inst, plans[v], q)
    ensures TrucksAmended(p, inst, plans[..v + 1], plans' + [q])
  {
    assert plans[..v + 1] == plans[..v] + [plans[v]];
  }

  /** truckSchemeAmendment for every truck in turn, threading the stock (Individual.cpp:72-74). */
  method AmendTruckPlans(p: Params, inst: Instance, plans: seq<seq<TruckEntry>>, usable: seq<int>, broken: seq<int>)
    returns (plans': seq<seq<TruckEntry>>, u: seq<int>, b: seq<int>)
    requires ValidParams(p) && |inst.networkInfo| == |usable| == |broken| == p.nbClients + 1
    requires TruckPlansOk(p, plans)
    ensures TrucksAmended(p, inst, plans, plans') && |u| == |b| == p.nbClients + 1
  {
    plans', u, b := [], usable, broken;
    for v := 0 to |plans|
      invariant TrucksAmended(p, inst, plans[..v], plans') && |u| == |b| == p.nbClients + 1
    {
      var q, u', b' := TruckSchemeAmendment(p, inst, plans[v], u, b);
      TrucksAmendedGrows(p, inst, plans, plans', v, q);
      plans', u, b := plans' + [q], u', b';
    }
    assert plans[..|plans|] == plans;
  }

  /** What the amendment keeps of one repairman schedule: its ends and stations (it only adds) and its time budget. */
  ghost predicate RepairAmended(p: Params, inst: Instance, visited: set<int>, plan: seq<RepairEntry>, plan': seq<RepairEntry>) {
    && ValidParams(p)
    && StationsGrow(p, visited, plan, plan')
    && (ScheduleTime(p, inst, plan) <= p.timeBudget ==> ScheduleTime(p, inst, plan') <= p.timeBudget)
  }

  ghost predicate RepairsAmended(p: Params, inst: Instance, visited: set<int>, plans: seq<seq<RepairEntry>>,
                                 plans': seq<seq<RepairEntry>>) {
    |plans'| == |plans| && forall v :: 0 <= v < |plans| ==> RepairAmended(p, inst, visited, plans[v], plans'[v])
  }

  lemma RepairsAmendedGrows(p: Params, inst: Instance, visited: set<int>, plans: seq<seq<RepairEntry>>,
                            plans': seq<seq<RepairEntry>>, v: int, q: seq<RepairEntry>)
    requires 0 <= v < |plans| && RepairsAmended(p, inst, visited, plans[..v], plans')
    requires RepairAmended(p, inst, visited, plans[v], q)
    ensures RepairsAmended(p, inst, visited, plans[..v + 1], plans' + [q])
  {
    assert plans[..v + 1] == plans[..v] + [plans[v]];
  }

  /** repairmanSchemeAmendment for every repairman in turn, with the stations of all repairman schedules (Individual.cpp:76-79). */
  method AmendRepairPlans(p: Params, inst: Instance, plans: seq<seq<RepairEntry>>, usable: seq<int>, broken: seq<int>,
                          visited: set<int>)
    returns (plans': seq<seq<RepairEntry>>, u: seq<int>, b: seq<int>)
    requires ValidParams(p) && |usable| == |broken| == p.nbClients + 1
    requires forall v :: 0 <= v < |plans| ==> |plans[v]| >= 2 && RouteIds(p, RepairStations(plans[v]))
    ensures RepairsAmended(p, inst, visited, plans, plans') && |u| == |b| == p.nbClients + 1
  {
    plans', u, b := [], usable, broken;
    for v := 0 to |plans|
      invariant RepairsAmended(p, inst, visited, plans[..v], plans') && |u| == |b| == p.nbClients + 1
    {
      var q, u', b' := RepairmanSchemeAmendment(p, inst, plans[v], u, b, visited);
      RepairsAmendedGrows(p, inst, visited, plans, plans', v, q);
      plans', u, b := plans' + [q], u', b';
    }
    assert plans[..|plans|] == plans;
  }

  /** Individual.cpp:81-90: a depot goes in front of and after every route that lacks one. */
  method ForceDepotEnds(routes: seq<seq<int>>) returns (r: seq<seq<int>>)
    requires forall i :: 0 <= i < |routes| ==> |routes[i]| >= 1
    ensures |r| == |routes|
    ensures forall i :: 0 <= i < |r| ==> r[i] == WithDepotEnds(routes[i])
    ensures (forall i :: 0 <= i < |routes| ==> DepotEnded(routes[i])) ==> r == routes
  {
    r := routes;
    for i := 0 to |r|
      invariant |r| == |routes|
      invariant forall j :: 0 <= j < i ==> r[j] == WithDepotEnds(routes[j])
      invariant forall j :: i <= j < |r| ==> r[j] == routes[j]
    {
      var chrom := r[i];
      if chrom[0] != 0 {
        chrom := [0] + chrom;
      }
      if chrom[|chrom| - 1] != 0 {
        chrom := chrom + [0];
      }
      r := r[i := chrom];
    }
    if forall i :: 0 <= i < |routes| ==> DepotEnded(routes[i]) {
      assert forall i :: 0 <= i < |r| ==> r[i] == routes[i];
    }
  }

  // ---------------------------------------------------------------------
  // buildIndividual and the route-given constructor
  // ---------------------------------------------------------------------

  /** A depot-ended route of station ids whose other stations all come from the given route. */
  predicate RouteFrom(p: Params, route: seq<int>, route': seq<int>) {
    DepotEnded(route') && RouteIds(p, route') && forall x :: x in route' && x != 0 ==> x in route
  }

  /** Normalisation keeps station ids. */
  lemma CombinedIds(p: Params, route: seq<int>, isRPM: bool)
    requires |route| >= 2 && RouteIds(p, route)
    ensures RouteIds(p, CombineRoute(route, isRPM))
  {
    var r := CombineRoute(route, isRPM);
    forall k | 0 <= k < |r| ensures IsStation(p, r[k]) {
      if r[k] != 0 {
        assert r[k] in route;
      }
    }
  }

  /** A route drawn, as a sub-multiset, from the normalised route visits no station the original route lacks. */
  lemma DrawnFrom(route: seq<int>, isRPM: bool, route': seq<int>)
    requires |route| >= 2 && multiset(route') <= multiset(CombineRoute(route, isRPM))
    ensures forall x :: x in route' && x != 0 ==> x in route
  {
    forall x | x in route' && x != 0 ensures x in route {
      assert x in multiset(route');
      assert x in CombineRoute(route, isRPM);
    }
  }

  /** Normalises every route of a chromosome and checks the result is ready for compilation. */
  method Normalise(p: Params, chrom: seq<seq<int>>, isRPM: bool) returns (r: seq<seq<int>>)
    requires forall i :: 0 <= i < |chrom| ==> |chrom[i]| >= 2 && RouteIds(p, chrom[i])
    ensures |r| == |chrom| && forall i :: 0 <= i < |r| ==> r[i] == CombineRoute(chrom[i], isRPM)
    ensures forall i :: 0 <= i < |r| ==> RouteIds(p, r[i]) && DepotEnded(r[i])
  {
    r := CombineRoutes(chrom, isRPM);
    forall i | 0 <= i < |r| ensures RouteIds(p, r[i]) {
      CombinedIds(p, chrom[i], isRPM);
    }
  }

  /**
   * Individual.cpp:55-63: both chromosomes normalised, then the repairmen
   * and the trucks compiled from the initial stock of the instance.
   */
  method CompileChromosomes(p: Params, inst: Instance, chromRPM: seq<seq<int>>, chromTRK: seq<seq<int>>)
    returns (rpm: seq<seq<int>>, trk: seq<seq<int>>, rplans: seq<seq<RepairEntry>>, tplans: seq<seq<TruckEntry>>,
             u: seq<int>, b: seq<int>)
    requires ValidParams(p) && ValidInstance(inst, p) && InitialStockOk(inst, p)
    requires forall i :: 0 <= i < |chromRPM| ==> |chromRPM[i]| >= 2 && RouteIds(p, chromRPM[i])
    requires forall i :: 0 <= i < |chromTRK| ==> |chromTRK[i]| >= 2 && RouteIds(p, chromTRK[i])
    ensures |rpm| == |rplans| == |chromRPM| && |trk| == |tplans| == |chromTRK| && |u| == |b| == p.nbClients + 1
    ensures forall i :: 0 <= i < |rpm| ==> RouteFrom(p, chromRPM[i], rpm[i]) && RepairStations(rplans[i]) == rpm[i]
    ensures forall i :: 0 <= i < |trk| ==> RouteFrom(p, chromTRK[i], trk[i]) && StationsOf(tplans[i]) == trk[i]
  {
    var rpm0 := Normalise(p, chromRPM, true);
    var trk0 := Normalise(p, chromTRK, false);
    u, b := InitialUsable(inst), InitialBroken(inst);
    rpm, rplans, u, b := GreedyAssignmentForRepairman(p, inst, rpm0, u, b);
    trk, tplans, u, b := GreedyAssignmentForTrucks(p, inst, trk0, u, b);
    forall i | 0 <= i < |rpm| ensures RouteFrom(p, chromRPM[i], rpm[i]) {
      assert RepairmanOk(p, rpm0[i], rpm[i], rplans[i]);
      DrawnFrom(chromRPM[i], true, rpm[i]);
    }
    forall i | 0 <= i < |trk| ensures RouteFrom(p, chromTRK[i], trk[i]) {
      assert TruckOk(p, trk0[i], trk[i], tplans[i]);
      DrawnFrom(chromTRK[i], false, trk[i]);
    }
  }

  /** Stamping arrival times keeps the stations of a schedule. */
  lemma StampKeepsStations(p: Params, inst: Instance, t: seq<TruckEntry>, r: seq<RepairEntry>)
    requires ValidParams(p)
    ensures StationsOf(StampedTruck(p, inst, t)) == StationsOf(t)
    ensures RepairStations(StampedRepair(p, inst, r)) == RepairStations(r)
  {
    StampedTruckKeeps(p, inst, t);
    StampedRepairKeeps(p, inst, r);
    var st, sr := StampedTruck(p, inst, t), StampedRepair(p, inst, r);
    assert forall k :: 0 <= k < |t| ==> st[k].station == t[k].station by {
      forall k | 0 <= k < |t| ensures st[k].station == t[k].station {
        assert st[k].(arrivingTime := t[k].arrivingTime) == t[k];
      }
    }
    assert forall k :: 0 <= k < |r| ==> sr[k].station == r[k].station by {
      forall k | 0 <= k < |r| ensures sr[k].station == r[k].station {
        assert sr[k].(arrivingTime := r[k].arrivingTime) == r[k];
      }
    }
  }

  /**
   * What a built solution looks like: one route and one schedule per
   * repairman and per truck; every route starts and ends at the depot and
   * visits only stations of the route it was built from; a truck's schedule
   * runs exactly along its route, and a repairman's schedule visits at least
   * the stations of its route (the amendment can add stops to the schedule
   * that the route does not get).
   */
  ghost predicate Built(p: Params, chromRPM: seq<seq<int>>, chromTRK: seq<seq<int>>, indiv: Individual) {
    && |indiv.chromRPM| == |chromRPM| && |indiv.repairPlans| == |chromRPM|
    && |indiv.chromTRK| == |chromTRK| && |indiv.truckPlans| == |chromTRK|
    && TruckPlansOk(p, indiv.truckPlans) && RepairPlansOk(p, indiv.repairPlans)
    && (forall i :: 0 <= i < |chromRPM| ==>
          RouteFrom(p, chromRPM[i], indiv.chromRPM[i])
          && multiset(indiv.chromRPM[i]) <= multiset(RepairStations(indiv.repairPlans[i])))
    && (forall i :: 0 <= i < |chromTRK| ==>
          RouteFrom(p, chromTRK[i], indiv.chromTRK[i]) && StationsOf(indiv.truckPlans[i]) == indiv.chromTRK[i])
  }

  /**
   * buildIndividual (Individual.cpp:53-93) followed by the check and the
   * evaluation. `trucks0` and `repairs0` are the amended schedules before
   * the check stamps their arrival times.
   */
  method BuildIndividual(p: Params, inst: Instance, penaltyCapacity: real, e: Eval,
                         chromRPM: seq<seq<int>>, chromTRK: seq<seq<int>>)
    returns (indiv: Individual, ghost trucks0: seq<seq<TruckEntry>>, ghost repairs0: seq<seq<RepairEntry>>)
    requires ValidParams(p) && ValidInstance(inst, p) && InitialStockOk(inst, p)
    requires forall i :: 0 <= i < |chromRPM| ==> |chromRPM[i]| >= 2 && RouteIds(p, chromRPM[i])
    requires forall i :: 0 <= i < |chromTRK| ==> |chromTRK[i]| >= 2 && RouteIds(p, chromTRK[i])
    ensures Built(p, chromRPM, chromTRK, indiv)
    ensures TruckPlansOk(p, trucks0) && RepairPlansOk(p, repairs0)
    ensures |trucks0| == |chromTRK| && forall v :: 0 <= v < |trucks0| ==> indiv.truckPlans[v] == StampedTruck(p, inst, trucks0[v])
    ensures |repairs0| == |chromRPM| && forall v :: 0 <= v < |repairs0| ==> indiv.repairPlans[v] == StampedRepair(p, inst, repairs0[v])
    ensures indiv.eval == SolutionEvaluation(
      Checked(p, inst, e, TrucksTotal(p, inst, trucks0), RepairsTotal(p, inst, repairs0),
              Outcome(p, inst, indiv.truckPlans, indiv.repairPlans)), penaltyCapacity)
  {
    var rpm, trk, rplans, tplans, u, b := CompileChromosomes(p, inst, chromRPM, chromTRK);
    var tplans', rplans' := AmendSchedules(p, inst, rpm, trk, rplans, tplans, u, b);
    assert forall i :: 0 <= i < |rpm| ==> DepotEnded(rpm[i]) by {
      forall i | 0 <= i < |rpm| ensures DepotEnded(rpm[i]) {
        assert RouteFrom(p, chromRPM[i], rpm[i]);
      }
    }
    assert forall i :: 0 <= i < |trk| ==> DepotEnded(trk[i]) by {
      forall i | 0 <= i < |trk| ensures DepotEnded(trk[i]) {
        assert RouteFrom(p, chromTRK[i], trk[i]);
      }
    }
    rpm := ForceDepotEnds(rpm);
    trk := ForceDepotEnds(trk);
    var e', tst, rst := FeasibilityCheck(p, inst, e, tplans', rplans');
    indiv := Individual(SolutionEvaluation(e', penaltyCapacity), rpm, trk, tst, rst);
    trucks0, repairs0 := tplans', rplans';
    forall v | 0 <= v < |trk| ensures StationsOf(tst[v]) == trk[v] {
      StampKeepsStations(p, inst, tplans'[v], []);
    }
    forall v | 0 <= v < |rpm| ensures multiset(rpm[v]) <= multiset(RepairStations(rst[v])) {
      StampKeepsStations(p, inst, [], rplans'[v]);
    }
  }

  /**
   * Individual.cpp:65-79: the stations of the repairman schedules are
   * collected, then every truck schedule and every repairman schedule is
   * amended, the stock threaded through all of them. Truck schedules keep
   * their stations; repairman schedules keep at least theirs.
   */
  method AmendSchedules(p: Params, inst: Instance, rpm: seq<seq<int>>, trk: seq<seq<int>>,
                        rplans: seq<seq<RepairEntry>>, tplans: seq<seq<TruckEntry>>, u: seq<int>, b: seq<int>)
    returns (tplans': seq<seq<TruckEntry>>, rplans': seq<seq<RepairEntry>>)
    requires ValidParams(p) && |inst.networkInfo| == |u| == |b| == p.nbClients + 1
    requires |rplans| == |rpm| && forall i :: 0 <= i < |rpm| ==> DepotEnded(rpm[i]) && RouteIds(p, rpm[i]) && RepairStations(rplans[i]) == rpm[i]
    requires |tplans| == |trk| && forall i :: 0 <= i < |trk| ==> DepotEnded(trk[i]) && RouteIds(p, trk[i]) && StationsOf(tplans[i]) == trk[i]
    ensures TruckPlansOk(p, tplans') && RepairPlansOk(p, rplans')
    ensures |tplans'| == |trk| && forall v :: 0 <= v < |trk| ==> StationsOf(tplans'[v]) == trk[v]
    ensures |rplans'| == |rpm| && forall v :: 0 <= v < |rpm| ==> multiset(rpm[v]) <= multiset(RepairStations(rplans'[v]))
  {
    var visited := CollectRepairStations(rplans);
    var u', b';
    tplans', u', b' := AmendTruckPlans(p, inst, tplans, u, b);
    rplans', u', b' := AmendRepairPlans(p, inst, rplans, u', b', visited);
    forall v | 0 <= v < |tplans'| ensures |tplans'[v]| >= 1 && RouteIds(p, StationsOf(tplans'[v])) && StationsOf(tplans'[v]) == trk[v] {
      assert TruckAmended(p, inst, tplans[v], tplans'[v]);
    }
    forall v | 0 <= v < |rplans'|
      ensures |rplans'[v]| >= 1 && RouteIds(p, RepairStations(rplans'[v])) && multiset(rpm[v]) <= multiset(RepairStations(rplans'[v]))
    {
      assert RepairAmended(p, inst, visited, rplans[v], rplans'[v]);
    }
  }

  // ---------------------------------------------------------------------
  // The constructor from given routes (Individual.cpp:38-51)
  // ---------------------------------------------------------------------

  /**
   * A repairman route per repairman and a truck route per vehicle (the
   * program indexes both chromosomes by those counts), every route with at
   * least two entries, all station ids.
   */
  predicate ChromosomesOk(p: Params, chromRPM: seq<seq<int>>, chromTRK: seq<seq<int>>) {
    && |chromRPM| == p.nbRepairmen && |chromTRK| == p.nbVehicles
    && (forall i :: 0 <= i < |chromRPM| ==> |chromRPM[i]| >= 2 && RouteIds(p, chromRPM[i]))
    && (forall i :: 0 <= i < |chromTRK| ==> |chromTRK[i]| >= 2 && RouteIds(p, chromTRK[i]))
  }

  /**
   * What the evaluation of a built solution satisfies: the objective is
   * recorded, the excess is never negative and is zero exactly for a
   * feasible solution, an infeasible one is charged no dissatisfaction and a
   * feasible one has a dissatisfaction entry for every station.
   */
  predicate Evaluated(p: Params, e: Eval, penaltyCapacity: real) {
    && e.objVal == ObjVal(e, penaltyCapacity)
    && e.capacityExcess >= 0 && (e.isFeasible <==> e.capacityExcess == 0)
    && (!e.isFeasible ==> e.dissat == 0.0)
    && (e.isFeasible ==> |e.dissatisfaction| == p.nbClients)
  }

  /** The check and the evaluation leave a consistent evaluation behind. */
  lemma CheckedEvaluated(p: Params, inst: Instance, e: Eval, tt: Tour, rt: Tour,
                         trucks: seq<seq<TruckEntry>>, repairs: seq<seq<RepairEntry>>, penaltyCapacity: real)
    requires |inst.networkInfo| == p.nbClients + 1 && InitialStockOk(inst, p)
    requires TruckPlansOk(p, trucks) && RepairPlansOk(p, repairs)
    ensures Evaluated(p, SolutionEvaluation(Checked(p, inst, e, tt, rt, Outcome(p, inst, trucks, repairs)), penaltyCapacity), penaltyCapacity)
  {
    var c := Checked(p, inst, e, tt, rt, Outcome(p, inst, trucks, repairs));
    assert c.capacityExcess >= 0 && (c.isFeasible <==> c.capacityExcess == 0)
        && (!c.isFeasible ==> c.dissat == 0.0) && (c.isFeasible ==> |c.dissatisfaction| == p.nbClients) by {
      CheckedVerdict(p, inst, e, tt, rt, trucks, repairs);
    }
    var r := SolutionEvaluation(c, penaltyCapacity);
    assert r.(objVal := c.objVal) == c;
    assert r.capacityExcess == c.capacityExcess && r.isFeasible == c.isFeasible;
    assert r.dissat == c.dissat && r.dissatisfaction == c.dissatisfaction;
    assert r.objVal == ObjVal(r, penaltyCapacity) by {
      ObjValKeepsOthers(c, r.objVal, penaltyCapacity);
    }
  }

  /** The objective does not depend on the recorded objective. */
  lemma ObjValKeepsOthers(e: Eval, x: real, penaltyCapacity: real)
    ensures ObjVal(e.(objVal := x), penaltyCapacity) == ObjVal(e, penaltyCapacity)
  {
    var f := e.(objVal := x);
    assert f.dissat == e.dissat && f.emission == e.emission && f.capacityExcess == e.capacityExcess;
    assert f.routeTRK == e.routeTRK && f.routeRPM == e.routeRPM;
    assert f.operationTimeTRK == e.operationTimeTRK && f.operationTimeRPM == e.operationTimeRPM;
  }

  /** Stripping interior depots keeps a route of station ids one of station ids with the same other stations. */
  lemma StrippedIds(p: Params, route: seq<int>)
    requires |route| > 2 && RouteIds(p, route)
    ensures RouteIds(p, DropInteriorDepots(route))
  {
    var r := DropInteriorDepots(route);
    forall k | 0 <= k < |r| ensures IsStation(p, r[k]) {
      if r[k] != 0 {
        assert r[k] in route;
      }
    }
  }

  /**
   * The route-given constructor: interior depots are stripped from the
   * repairman routes, then the solution is built from a fresh evaluation.
   * Every route of the result starts and ends at the depot and visits only
   * stations of the route it came from; truck schedules run along the truck
   * routes; the evaluation is consistent.
   */
  method IndividualFromRoutes(p: Params, inst: Instance, penaltyCapacity: real,
                              rpmRoutes: seq<seq<int>>, trkRoutes: seq<seq<int>>)
    returns (indiv: Individual)
    requires ValidParams(p) && ValidInstance(inst, p) && InitialStockOk(inst, p)
    requires ChromosomesOk(p, rpmRoutes, trkRoutes)
    ensures |indiv.chromRPM| == |rpmRoutes| && |indiv.chromTRK| == |trkRoutes|
    ensures forall i :: 0 <= i < |rpmRoutes| ==> RouteFrom(p, rpmRoutes[i], indiv.chromRPM[i])
    ensures |indiv.truckPlans| == |trkRoutes|
    ensures forall i :: 0 <= i < |trkRoutes| ==>
      RouteFrom(p, trkRoutes[i], indiv.chromTRK[i]) && StationsOf(indiv.truckPlans[i]) == indiv.chromTRK[i]
    ensures ChromosomesOk(p, indiv.chromRPM, indiv.chromTRK)
    ensures Evaluated(p, indiv.eval, penaltyCapacity)
  {
    var rpm := StripInteriorDepots(rpmRoutes);
    forall i | 0 <= i < |rpm| ensures |rpm[i]| >= 2 && RouteIds(p, rpm[i]) {
      if |rpmRoutes[i]| > 2 {
        StrippedIds(p, rpmRoutes[i]);
      }
    }
    ghost var trucks0, repairs0;
    indiv, trucks0, repairs0 := BuildIndividual(p, inst, penaltyCapacity, InitialEval(), rpm, trkRoutes);
    forall i | 0 <= i < |rpmRoutes| ensures RouteFrom(p, rpmRoutes[i], indiv.chromRPM[i]) {
      assert RouteFrom(p, rpm[i], indiv.chromRPM[i]);
    }
    assert Evaluated(p, indiv.eval, penaltyCapacity) by {
      CheckedEvaluated(p, inst, InitialEval(), TrucksTotal(p, inst, trucks0), RepairsTotal(p, inst, repairs0),
                       indiv.truckPlans, indiv.repairPlans, penaltyCapacity);
    }
  }
}
