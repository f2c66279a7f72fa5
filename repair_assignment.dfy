/*
 * The repairman schedule compiler (helpers/Utils.cpp: assignRepairmanScheme).
 * After getMaxOpTime has allotted each station of the route its operating
 * time (and possibly shortened the route), the repairman visits the route
 * once and at each station repairs as many broken bikes as the station still
 * needs to reach its target, the time allows and the broken stock holds.
 *
 * The stock and the allotted times are passed by reference in the program;
 * here they are returned. The time left over (`extraTime`) and the
 * priority-ordered copy of the route are computed by the program but never
 * used, so they are not modelled.
 */
module RepairAssignment {
  import opened Instances
  import opened Schemes
  import opened Routes
  import opened TimeHelper
  import opened TimeAllotment

  /** The time `n` repairs take. */
  function RepairTime(p: Params, n: int): (t: real)
    requires ValidParams(p)
    ensures n >= 0 ==> t >= 0.0
  {
    Times(n, p.repairTime) as real
  }

  /** Repair times add up. */
  lemma RepairTimeAdd(p: Params, a: int, b: int)
    requires ValidParams(p)
    ensures RepairTime(p, a + b) == RepairTime(p, a) + RepairTime(p, b)
  {
    TimesIsProduct(a + b, p.repairTime);
    TimesIsProduct(a, p.repairTime);
    TimesIsProduct(b, p.repairTime);
    assert (a + b) * p.repairTime == a * p.repairTime + b * p.repairTime;
  }

  /**
   * The repair quantity at a station (Utils.cpp:445-447): the smallest of the
   * shortfall below target, the repairs the time allows and the broken stock.
   */
  function RepairQuantity(p: Params, inst: Instance, s: int, u: int, b: int, t: real): (q: int)
    requires ValidParams(p) && 0 < s < |inst.networkInfo|
    ensures q <= Max(Target(inst, s) - u, 0) && q <= MaxRepairQByTime(p.repairTime, t) && q <= b
    ensures q == Max(Target(inst, s) - u, 0) || q == MaxRepairQByTime(p.repairTime, t) || q == b
    ensures b >= 0 && t >= 0.0 ==> 0 <= q && RepairTime(p, q) <= t
    ensures q > 0 ==> u + q <= Target(inst, s)
  {
    var need := Max(Target(inst, s) - u, 0);
    var byTime := MaxRepairQByTime(p.repairTime, t);
    var q := if need <= byTime && need <= b then need else if byTime <= b then byTime else b;
    if b >= 0 && t >= 0.0 then
      MaxRepairQNonNegative(p.repairTime, t);
      RepairTimeFits(p.repairTime, t, q);
      TimesIsProduct(q, p.repairTime);
      q
    else
      q
  }

  /** Bikes repaired at station s over a schedule. */
  function RepairedAt(plan: seq<RepairEntry>, s: int): int {
    if plan == [] then 0
    else RepairedAt(plan[..|plan| - 1], s) + (if plan[|plan| - 1].station == s then plan[|plan| - 1].repair else 0)
  }

  /** A station the schedule never visits has nothing repaired. */
  lemma {:induction false} RepairedAtAbsent(plan: seq<RepairEntry>, s: int)
    requires forall k :: 0 <= k < |plan| ==> plan[k].station != s
    ensures RepairedAt(plan, s) == 0
  {
    if plan != [] {
      RepairedAtAbsent(plan[..|plan| - 1], s);
    }
  }

  /** Appending an entry adds its repairs to its own station only. */
  lemma RepairedAtAppend(plan: seq<RepairEntry>, e: RepairEntry, s: int)
    ensures RepairedAt(plan + [e], s) == RepairedAt(plan, s) + (if e.station == s then e.repair else 0)
  {
    assert (plan + [e])[..|plan|] == plan;
  }

  /** The state the pass has reached: stock and times are the inputs minus what the schedule repaired. */
  ghost predicate Replayed(p: Params, usable: seq<int>, broken: seq<int>, maxOp: seq<real>,
                           plan: seq<RepairEntry>, u: seq<int>, b: seq<int>, m: seq<real>)
    requires ValidParams(p) && |usable| == |broken| == |maxOp| == p.nbClients + 1
  {
    |u| == |b| == |m| == p.nbClients + 1 &&
    forall s :: 0 <= s <= p.nbClients ==>
      u[s] == usable[s] + RepairedAt(plan, s) && b[s] == broken[s] - RepairedAt(plan, s) &&
      m[s] == maxOp[s] - RepairTime(p, RepairedAt(plan, s))
  }

  /** No station had more repaired than it had broken bikes or time for, nor was pushed past its target. */
  ghost predicate RepairsBounded(p: Params, inst: Instance, usable: seq<int>, broken: seq<int>, maxOp: seq<real>,
                                 plan: seq<RepairEntry>, u: seq<int>)
    requires ValidParams(p) && |inst.networkInfo| == |usable| == |broken| == |maxOp| == |u| == p.nbClients + 1
  {
    forall s :: 1 <= s <= p.nbClients && broken[s] >= 0 && maxOp[s] >= 0.0 ==>
      0 <= RepairedAt(plan, s) <= broken[s] && RepairTime(p, RepairedAt(plan, s)) <= maxOp[s] &&
      u[s] <= Max(usable[s], Target(inst, s))
  }

  /**
   * Entry k of the schedule is the stop at route[k]: nothing is repaired at
   * the depot, and elsewhere RepairQuantity of the stock and time the station
   * has left after the repairs of the entries before k.
   */
  ghost predicate EntryPlanned(p: Params, inst: Instance, route: seq<int>, usable: seq<int>, broken: seq<int>,
                               maxOp: seq<real>, plan: seq<RepairEntry>, k: int)
    requires ValidParams(p) && |inst.networkInfo| == |usable| == |broken| == |maxOp| == p.nbClients + 1
    requires RouteIds(p, route) && 1 <= k < |plan| && k < |route|
  {
    var s, done := route[k], RepairedAt(plan[..k], route[k]);
    plan[k].station == s && plan[k].arrivingTime == 0.0 &&
    plan[k].repair == (if s == 0 then 0
                       else RepairQuantity(p, inst, s, usable[s] + done, broken[s] - done, maxOp[s] - RepairTime(p, done)))
  }

  /** Every entry after the first is planned, and the first is the default depot entry. */
  ghost predicate Planned(p: Params, inst: Instance, route: seq<int>, usable: seq<int>, broken: seq<int>,
                          maxOp: seq<real>, plan: seq<RepairEntry>)
    requires ValidParams(p) && |inst.networkInfo| == |usable| == |broken| == |maxOp| == p.nbClients + 1
    requires RouteIds(p, route) && |plan| <= |route|
  {
    |plan| >= 1 && plan[0] == RepairEntry(0, 0.0, 0) &&
    forall k :: 1 <= k < |plan| ==> EntryPlanned(p, inst, route, usable, broken, maxOp, plan, k)
  }

  /** The schedule built so far and the stock and times it leaves. */
  datatype RepairState = RepairState(plan: seq<RepairEntry>, u: seq<int>, b: seq<int>, m: seq<real>)

  /** One stop of the pass (Utils.cpp:440-455). */
  function RepairStep(p: Params, inst: Instance, st: RepairState, s: int): (r: RepairState)
    requires ValidParams(p) && |inst.networkInfo| == p.nbClients + 1 && 0 <= s <= p.nbClients
    requires |st.u| == |st.b| == |st.m| == p.nbClients + 1
    ensures |r.u| == |r.b| == |r.m| == p.nbClients + 1 && |r.plan| == |st.plan| + 1
    ensures r.plan == st.plan + [r.plan[|st.plan|]] && r.plan[|st.plan|].station == s
  {
    if s == 0 then
      st.(plan := st.plan + [RepairEntry(0, 0.0, 0)])
    else
      var q := RepairQuantity(p, inst, s, st.u[s], st.b[s], st.m[s]);
      RepairState(st.plan + [RepairEntry(s, 0.0, q)], st.u[s := st.u[s] + q], st.b[s := st.b[s] - q],
                  st.m[s := st.m[s] - RepairTime(p, q)])
  }

  /** The pass over route[..i]. */
  function RepairRun(p: Params, inst: Instance, route: seq<int>, usable: seq<int>, broken: seq<int>,
                     maxOp: seq<real>, i: int): (r: RepairState)
    requires ValidParams(p) && |inst.networkInfo| == p.nbClients + 1 && RouteIds(p, route) && 1 <= i <= |route|
    requires |usable| == |broken| == |maxOp| == p.nbClients + 1
    ensures |r.u| == |r.b| == |r.m| == p.nbClients + 1 && |r.plan| == i
    decreases i
  {
    if i == 1 then RepairState([RepairEntry(0, 0.0, 0)], usable, broken, maxOp)
    else RepairStep(p, inst, RepairRun(p, inst, route, usable, broken, maxOp, i - 1), route[i - 1])
  }

  /** One stop keeps the replayed state and the bounds. */
  lemma StepReplayed(p: Params, inst: Instance, usable: seq<int>, broken: seq<int>, maxOp: seq<real>,
                     st: RepairState, s: int)
    requires ValidParams(p) && |inst.networkInfo| == p.nbClients + 1 && 0 <= s <= p.nbClients
    requires |usable| == |broken| == |maxOp| == p.nbClients + 1
    requires Replayed(p, usable, broken, maxOp, st.plan, st.u, st.b, st.m)
    requires RepairsBounded(p, inst, usable, broken, maxOp, st.plan, st.u)
    ensures var r := RepairStep(p, inst, st, s);
      Replayed(p, usable, broken, maxOp, r.plan, r.u, r.b, r.m) && RepairsBounded(p, inst, usable, broken, maxOp, r.plan, r.u)
  {
    var r := RepairStep(p, inst, st, s);
    var e := r.plan[|st.plan|];
    RepairStepKeeps(p, inst, usable, broken, maxOp, st.plan, st.u, st.b, st.m, e);
    if s == 0 {
      assert st.u[0 := st.u[0] + 0] == st.u && st.b[0 := st.b[0] - 0] == st.b;
      assert st.m[0 := st.m[0] - RepairTime(p, 0)] == st.m;
    }
  }

  /** The stock and times the pass leaves are the inputs with the schedule's repairs applied. */
  lemma {:induction false} RunReplayed(p: Params, inst: Instance, route: seq<int>, usable: seq<int>, broken: seq<int>,
                                       maxOp: seq<real>, i: int)
    requires ValidParams(p) && |inst.networkInfo| == p.nbClients + 1 && RouteIds(p, route) && 1 <= i <= |route|
    requires |usable| == |broken| == |maxOp| == p.nbClients + 1
    ensures var r := RepairRun(p, inst, route, usable, broken, maxOp, i);
      Replayed(p, usable, broken, maxOp, r.plan, r.u, r.b, r.m) && RepairsBounded(p, inst, usable, broken, maxOp, r.plan, r.u)
  {
    if i == 1 {
      var plan := [RepairEntry(0, 0.0, 0)];
      forall s | 0 <= s <= p.nbClients ensures RepairedAt(plan, s) == 0 {
        RepairedAtAppend([], plan[0], s);
        assert [] + [plan[0]] == plan;
      }
    } else {
      RunReplayed(p, inst, route, usable, broken, maxOp, i - 1);
      StepReplayed(p, inst, usable, broken, maxOp, RepairRun(p, inst, route, usable, broken, maxOp, i - 1), route[i - 1]);
    }
  }

  /** Every entry of the pass is planned. */
  lemma {:induction false} RunPlanned(p: Params, inst: Instance, route: seq<int>, usable: seq<int>, broken: seq<int>,
                                      maxOp: seq<real>, i: int)
    requires ValidParams(p) && |inst.networkInfo| == p.nbClients + 1 && RouteIds(p, route) && 1 <= i <= |route|
    requires |usable| == |broken| == |maxOp| == p.nbClients + 1
    ensures Planned(p, inst, route, usable, broken, maxOp, RepairRun(p, inst, route, usable, broken, maxOp, i).plan)
  {
    if i > 1 {
      RunPlanned(p, inst, route, usable, broken, maxOp, i - 1);
      RunReplayed(p, inst, route, usable, broken, maxOp, i - 1);
      var st := RepairRun(p, inst, route, usable, broken, maxOp, i - 1);
      var s := route[i - 1];
      assert st.u[s] == usable[s] + RepairedAt(st.plan, s);
      var r := RepairStep(p, inst, st, s);
      PlannedAppend(p, inst, route, usable, broken, maxOp, st.plan, r.plan[i - 1]);
    }
  }

  /**
   * Entry k >= 1 of the pass is the stop at route[k]; nothing is repaired at
   * the depot, and nothing negative where the station's broken stock and time
   * are not negative.
   */
  lemma {:induction false} RunEntries(p: Params, inst: Instance, route: seq<int>, usable: seq<int>, broken: seq<int>,
                                      maxOp: seq<real>, i: int)
    requires ValidParams(p) && |inst.networkInfo| == p.nbClients + 1 && RouteIds(p, route) && 1 <= i <= |route|
    requires |usable| == |broken| == |maxOp| == p.nbClients + 1
    ensures var plan := RepairRun(p, inst, route, usable, broken, maxOp, i).plan;
      plan[0] == RepairEntry(0, 0.0, 0) &&
      forall k :: 1 <= k < i ==>
        plan[k].station == route[k] && (route[k] == 0 ==> plan[k].repair == 0) &&
        (broken[route[k]] >= 0 && maxOp[route[k]] >= 0.0 ==> plan[k].repair >= 0)
  {
    if i > 1 {
      RunEntries(p, inst, route, usable, broken, maxOp, i - 1);
      RunReplayed(p, inst, route, usable, broken, maxOp, i - 1);
      var st := RepairRun(p, inst, route, usable, broken, maxOp, i - 1);
      var r := RepairStep(p, inst, st, route[i - 1]);
      RepairStepKeeps(p, inst, usable, broken, maxOp, st.plan, st.u, st.b, st.m, r.plan[i - 1]);
    }
  }

  /**
   * The loop of assignRepairmanScheme (Utils.cpp:437-455): entry 0 is a
   * default entry at the depot and entry k >= 1 the stop at route[k]. The
   * returned stock is the input stock with the schedule's repairs applied.
   */
  method RepairPass(p: Params, inst: Instance, route: seq<int>, usable: seq<int>, broken: seq<int>, maxOp: seq<real>)
    returns (plan: seq<RepairEntry>, u: seq<int>, b: seq<int>)
    requires ValidParams(p) && |inst.networkInfo| == p.nbClients + 1 && RouteIds(p, route) && |route| >= 1
    requires |usable| == p.nbClients + 1 && |broken| == p.nbClients + 1 && |maxOp| == p.nbClients + 1
    ensures |plan| == |route| && Planned(p, inst, route, usable, broken, maxOp, plan)
    ensures |u| == |b| == p.nbClients + 1
    ensures forall s :: 0 <= s <= p.nbClients ==>
      u[s] == usable[s] + RepairedAt(plan, s) && b[s] == broken[s] - RepairedAt(plan, s)
    ensures RepairsBounded(p, inst, usable, broken, maxOp, plan, u)
    ensures plan[0] == RepairEntry(0, 0.0, 0)
    ensures forall k :: 1 <= k < |plan| ==>
      plan[k].station == route[k] && (route[k] == 0 ==> plan[k].repair == 0) &&
      (broken[route[k]] >= 0 && maxOp[route[k]] >= 0.0 ==> plan[k].repair >= 0)
  {
    plan := [RepairEntry(0, 0.0, 0)];
    u, b := usable, broken;
    var m := maxOp;
    var i := 1;
    while i < |route|
      invariant 1 <= i <= |route| && RepairRun(p, inst, route, usable, broken, maxOp, i) == RepairState(plan, u, b, m)
    {
      var s := route[i];
      var e := RepairEntry(s, 0.0, 0);
      if s != 0 {
        var q := RepairQuantity(p, inst, s, u[s], b[s], m[s]);
        e := RepairEntry(s, 0.0, q);
        u, b, m := u[s := u[s] + q], b[s := b[s] - q], m[s := m[s] - RepairTime(p, q)];
      }
      plan := plan + [e];
      i := i + 1;
    }
    RunReplayed(p, inst, route, usable, broken, maxOp, i);
    RunPlanned(p, inst, route, usable, broken, maxOp, i);
    RunEntries(p, inst, route, usable, broken, maxOp, i);
  }

  /** Appending the stop at route[|plan|], computed from the replayed state, keeps the schedule planned. */
  lemma PlannedAppend(p: Params, inst: Instance, route: seq<int>, usable: seq<int>, broken: seq<int>,
                      maxOp: seq<real>, plan: seq<RepairEntry>, e: RepairEntry)
    requires ValidParams(p) && |inst.networkInfo| == |usable| == |broken| == |maxOp| == p.nbClients + 1
    requires RouteIds(p, route) && |plan| < |route| && Planned(p, inst, route, usable, broken, maxOp, plan)
    requires var s, done := route[|plan|], RepairedAt(plan, route[|plan|]);
      e.station == s && e.arrivingTime == 0.0 &&
      e.repair == (if s == 0 then 0
                   else RepairQuantity(p, inst, s, usable[s] + done, broken[s] - done, maxOp[s] - RepairTime(p, done)))
    ensures Planned(p, inst, route, usable, broken, maxOp, plan + [e])
  {
    var plan' := plan + [e];
    forall k | 1 <= k < |plan'| ensures EntryPlanned(p, inst, route, usable, broken, maxOp, plan', k) {
      if k < |plan| {
        EntryPlannedExtend(p, inst, route, usable, broken, maxOp, plan, e, k);
      } else {
        assert plan'[..k] == plan;
      }
    }
  }

  /** An entry stays planned when the schedule grows behind it. */
  lemma EntryPlannedExtend(p: Params, inst: Instance, route: seq<int>, usable: seq<int>, broken: seq<int>,
                           maxOp: seq<real>, plan: seq<RepairEntry>, e: RepairEntry, k: int)
    requires ValidParams(p) && |inst.networkInfo| == |usable| == |broken| == |maxOp| == p.nbClients + 1
    requires RouteIds(p, route) && |plan| < |route| && 1 <= k < |plan|
    requires EntryPlanned(p, inst, route, usable, broken, maxOp, plan, k)
    ensures EntryPlanned(p, inst, route, usable, broken, maxOp, plan + [e], k)
  {
    assert (plan + [e])[..k] == plan[..k];
  }

  /** One stop of the pass keeps the replayed state and the bounds. */
  lemma RepairStepKeeps(p: Params, inst: Instance, usable: seq<int>, broken: seq<int>, maxOp: seq<real>,
                        plan: seq<RepairEntry>, u: seq<int>, b: seq<int>, m: seq<real>, e: RepairEntry)
    requires ValidParams(p) && |inst.networkInfo| == p.nbClients + 1
    requires |usable| == |broken| == |maxOp| == p.nbClients + 1 && 0 <= e.station <= p.nbClients
    requires Replayed(p, usable, broken, maxOp, plan, u, b, m)
    requires RepairsBounded(p, inst, usable, broken, maxOp, plan, u)
    requires e.repair == (if e.station == 0 then 0 else RepairQuantity(p, inst, e.station, u[e.station], b[e.station], m[e.station]))
    ensures var s, q := e.station, e.repair;
      Replayed(p, usable, broken, maxOp, plan + [e], u[s := u[s] + q], b[s := b[s] - q], m[s := m[s] - RepairTime(p, q)])
    ensures var s, q := e.station, e.repair;
      RepairsBounded(p, inst, usable, broken, maxOp, plan + [e], u[s := u[s] + q])
    ensures e.station != 0 && broken[e.station] >= 0 && maxOp[e.station] >= 0.0 ==> e.repair >= 0
  {
    var s, q := e.station, e.repair;
    var u', b', m' := u[s := u[s] + q], b[s := b[s] - q], m[s := m[s] - RepairTime(p, q)];
    forall t | 0 <= t <= p.nbClients
      ensures u'[t] == usable[t] + RepairedAt(plan + [e], t) && b'[t] == broken[t] - RepairedAt(plan + [e], t)
      ensures m'[t] == maxOp[t] - RepairTime(p, RepairedAt(plan + [e], t))
    {
      RepairedAtAppend(plan, e, t);
      RepairTimeAdd(p, RepairedAt(plan, t), q);
    }
    forall t | 1 <= t <= p.nbClients && broken[t] >= 0 && maxOp[t] >= 0.0
      ensures 0 <= RepairedAt(plan + [e], t) <= broken[t]
      ensures RepairTime(p, RepairedAt(plan + [e], t)) <= maxOp[t]
      ensures u'[t] <= Max(usable[t], Target(inst, t))
    {
      RepairedAtAppend(plan, e, t);
      RepairTimeAdd(p, RepairedAt(plan, t), q);
    }
  }

  /**
   * assignRepairmanScheme (Utils.cpp:432-467): the allotment, then the pass
   * over the route getMaxOpTime leaves. Repairs turn broken bikes into usable
   * ones, so every station keeps its total stock, and the stock stays within
   * bounds.
   */
  method AssignRepairmanScheme(p: Params, inst: Instance, route: seq<int>, usable: seq<int>, broken: seq<int>)
    returns (plan: seq<RepairEntry>, adjusted: seq<int>, newUsable: seq<int>, newBroken: seq<int>)
    requires ValidParams(p) && ValidInstance(inst, p) && InventoryOk(inst, p, usable, broken)
    requires RouteIds(p, route) && |route| >= 1
    ensures |adjusted| >= 1 && adjusted[0] == route[0] && RouteIds(p, adjusted)
    ensures multiset(adjusted) <= multiset(route) && multiset(adjusted)[0] == multiset(route)[0]
    ensures DepotEnded(route) ==> DepotEnded(adjusted)
    ensures |plan| == |adjusted| && plan[0] == RepairEntry(0, 0.0, 0)
    ensures forall k :: 1 <= k < |plan| ==> plan[k].station == adjusted[k] && plan[k].repair >= 0
    ensures forall k :: 1 <= k < |plan| && adjusted[k] == 0 ==> plan[k].repair == 0
    ensures |newUsable| == |usable| && |newBroken| == |broken|
    ensures forall s :: 0 <= s <= p.nbClients ==> newUsable[s] + newBroken[s] == usable[s] + broken[s]
    ensures forall s :: 1 <= s <= p.nbClients ==> usable[s] <= newUsable[s] <= Max(usable[s], Target(inst, s))
    ensures InventoryOk(inst, p, newUsable, newBroken)
  {
    var maxOp, pv, op;
    maxOp, pv, adjusted, op := GetMaxOpTime(p, usable, broken, route, true, inst);
    plan, newUsable, newBroken := RepairPass(p, inst, adjusted, usable, broken, maxOp);
    if op < SingleOperatingTime(p, true) {
      forall s | 1 <= s <= p.nbClients ensures RepairedAt(plan, s) == 0 {
        forall k | 0 <= k < |plan| ensures plan[k].station != s {
          if k > 0 {
            assert adjusted[k] == 0;
          }
        }
        RepairedAtAbsent(plan, s);
      }
    }
  }
}
