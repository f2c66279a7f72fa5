/*
 * assignTruckScheme (helpers/Utils.cpp:363-430): the truck's schedule is
 * compiled twice. The first greedy pass runs with the times allotted by
 * getMaxOpTime; the time that unloading stations did not use is then taken
 * back and handed, highest priority first, to the stations that were left
 * short, and the pass is run again from the original stock.
 */
module TruckScheme {
  import opened Instances
  import opened Schemes
  import opened Sorting
  import opened TimeAllotment
  import opened Routes
  import opened TruckAssignment

  /** The sum of a vector of times. */
  function Total(m: seq<real>): (t: real)
    ensures (forall k :: 0 <= k < |m| ==> m[k] >= 0.0) ==> t >= 0.0
  {
    if m == [] then 0.0 else Total(m[..|m| - 1]) + m[|m| - 1]
  }

  /** Changing one entry changes the sum by the difference. */
  lemma {:induction false} TotalUpdate(m: seq<real>, s: int, v: real)
    requires 0 <= s < |m|
    ensures Total(m[s := v]) == Total(m) - m[s] + v
  {
    var n := |m| - 1;
    if s == n {
      assert m[s := v][..n] == m[..n];
    } else {
      assert m[s := v][..n] == m[..n][s := v];
      TotalUpdate(m[..n], s, v);
    }
  }

  /** The time a short station asks for: loading and unloading its whole surplus. */
  function Request(p: Params, x: UnsatRecord): (t: real)
    requires ValidParams(p)
    ensures x.surplus > 0 ==> t >= 2.0
  {
    (2 * x.surplus * p.loadingTime) as real
  }

  /** The time all records of a list ask for. */
  function Requested(p: Params, l: seq<UnsatRecord>): (t: real)
    requires ValidParams(p)
    ensures ListOk(p, l) ==> t >= 0.0
  {
    if l == [] then 0.0
    else
      assert forall x :: x in l[..|l| - 1] ==> x in l;
      assert l[|l| - 1] in l;
      Requested(p, l[..|l| - 1]) + Request(p, l[|l| - 1])
  }

  /** A longer prefix asks for strictly more time. */
  lemma {:induction false} RequestedGrows(p: Params, l: seq<UnsatRecord>, k: int)
    requires ValidParams(p) && ListOk(p, l) && 0 <= k < |l|
    ensures Requested(p, l[..k]) < Requested(p, l)
  {
    var n := |l| - 1;
    assert l[..n] == l[..n];
    assert l[n] in l;
    if k < n {
      assert forall x :: x in l[..n] ==> x in l;
      RequestedGrows(p, l[..n], k);
      assert l[..n][..k] == l[..k];
    } else {
      assert l[..k] == l[..n];
    }
  }

  /**
   * Takes back the time unloading stations left unused (Utils.cpp:380-393):
   * each record's time, up to what the station was allotted, moves from the
   * station into the pool. Time is conserved, and a station that had a
   * non-negative allotment keeps a non-negative one.
   */
  method ReclaimExtra(p: Params, maxOp: seq<real>, l: seq<ExtraRecord>) returns (m: seq<real>, extra: real)
    requires |maxOp| == p.nbClients + 1 && ExtraOk(p, l)
    ensures |m| == |maxOp| && Total(m) + extra == Total(maxOp)
    ensures forall s :: 0 <= s < |m| && maxOp[s] >= 0.0 ==> 0.0 <= m[s] <= maxOp[s]
    ensures forall s :: 0 <= s < |m| && (forall x :: x in l ==> x.station != s) ==> m[s] == maxOp[s]
    ensures (forall s :: 0 <= s < |maxOp| ==> maxOp[s] >= 0.0) ==> extra >= 0.0
  {
    m := maxOp;
    extra := 0.0;
    var k := 0;
    while k < |l|
      invariant 0 <= k <= |l| && |m| == |maxOp| && Total(m) + extra == Total(maxOp)
      invariant forall s :: 0 <= s < |m| && maxOp[s] >= 0.0 ==> 0.0 <= m[s] <= maxOp[s]
      invariant forall s :: 0 <= s < |m| && (forall x :: x in l ==> x.station != s) ==> m[s] == maxOp[s]
      invariant (forall s :: 0 <= s < |maxOp| ==> maxOp[s] >= 0.0) ==> extra >= 0.0
    {
      var x := l[k];
      assert x in l;
      var taken := if x.time <= m[x.station] then x.time else m[x.station];
      TotalUpdate(m, x.station, m[x.station] - taken);
      m := m[x.station := m[x.station] - taken];
      extra := extra + taken;
      k := k + 1;
    }
  }

  /**
   * Hands the pooled time to the short stations in list order
   * (Utils.cpp:409-417). Each grant is the station's request capped by what
   * is left, truncated to an integer as the program's int conversion does.
   * Time is conserved; when the pool covers every request each station gets
   * its request in full, and otherwise less than one time unit is left over.
   */
  method GrantExtra(p: Params, maxOp: seq<real>, l: seq<UnsatRecord>, extra: real) returns (m: seq<real>, left: real)
    requires ValidParams(p) && |maxOp| == p.nbClients + 1 && ListOk(p, l) && extra > 0.0
    ensures |m| == |maxOp| && forall s :: 0 <= s < |m| ==> m[s] >= maxOp[s]
    ensures forall s :: 0 <= s < |m| && (forall x :: x in l ==> x.station != s) ==> m[s] == maxOp[s]
    ensures Total(m) + left == Total(maxOp) + extra
    ensures 0.0 <= left <= extra
    ensures extra >= Requested(p, l) ==> left == extra - Requested(p, l)
    ensures extra < Requested(p, l) ==> left < 1.0
  {
    m := maxOp;
    left := extra;
    var k := 0;
    while left > 0.0 && k < |l|
      invariant 0 <= k <= |l| && |m| == |maxOp|
      invariant forall s :: 0 <= s < |m| ==> m[s] >= maxOp[s]
      invariant forall s :: 0 <= s < |m| && (forall x :: x in l ==> x.station != s) ==> m[s] == maxOp[s]
      invariant Total(m) + left == Total(maxOp) + extra
      invariant 0.0 <= left <= extra
      invariant left == extra - Requested(p, l[..k]) || (left < 1.0 && extra < Requested(p, l[..k]))
    {
      assert l[k] in l;
      GrantStep(p, l, k, extra, left);
      m, left := GrantOne(p, m, l[k], left);
      k := k + 1;
    }
    if k < |l| {
      RequestedGrows(p, l, k);
    } else {
      assert l[..k] == l;
    }
  }

  /** The whole-unit part of the smaller of a station's request and the pool. */
  function Grant(p: Params, x: UnsatRecord, left: real): (g: int)
    requires ValidParams(p) && left >= 0.0
    ensures g as real <= left && g as real <= Request(p, x)
    ensures x.surplus >= 0 ==> 0 <= g
    ensures Request(p, x) <= left ==> g as real == Request(p, x)
    ensures Request(p, x) > left ==> left - g as real < 1.0
  {
    (if Request(p, x) <= left then Request(p, x) else left).Floor
  }

  /** One grant (Utils.cpp:412-416): the station's time grows by the grant and the pool shrinks by it. */
  method GrantOne(p: Params, m: seq<real>, x: UnsatRecord, left: real) returns (m': seq<real>, left': real)
    requires ValidParams(p) && 0 <= x.station < |m| && left >= 0.0
    ensures m' == m[x.station := m[x.station] + Grant(p, x, left) as real]
    ensures left' == left - Grant(p, x, left) as real
    ensures Total(m') + left' == Total(m) + left
  {
    var g := Grant(p, x, left) as real;
    TotalUpdate(m, x.station, m[x.station] + g);
    m', left' := m[x.station := m[x.station] + g], left - g;
  }

  /** One grant keeps the pool balanced against the requests served so far. */
  lemma GrantStep(p: Params, l: seq<UnsatRecord>, k: int, extra: real, left: real)
    requires ValidParams(p) && ListOk(p, l) && 0 <= k < |l| && 0.0 < left <= extra
    requires left == extra - Requested(p, l[..k]) || (left < 1.0 && extra < Requested(p, l[..k]))
    ensures var g := Grant(p, l[k], left) as real;
      left - g == extra - Requested(p, l[..k + 1]) || (left - g < 1.0 && extra < Requested(p, l[..k + 1]))
  {
    assert l[..k + 1][..k] == l[..k];
    assert l[k] in l;
  }

  /**
   * Merges one list of short stations into another with unSatUpdate
   * (Utils.cpp:399-405): records keep their place and station, and every
   * station of either list ends up in the result.
   */
  method MergeRecords(p: Params, into: seq<UnsatRecord>, from: seq<UnsatRecord>) returns (r: seq<UnsatRecord>)
    requires ListOk(p, into) && ListOk(p, from)
    ensures ListOk(p, r)
    ensures |into| <= |r| && forall j :: 0 <= j < |into| ==> r[j].station == into[j].station
    ensures forall x :: x in from ==> x.station in RecordStations(r)
  {
    r := into;
    var k := 0;
    while k < |from|
      invariant 0 <= k <= |from| && ListOk(p, r)
      invariant |into| <= |r| && forall j :: 0 <= j < |into| ==> r[j].station == into[j].station
      invariant forall i :: 0 <= i < k ==> from[i].station in RecordStations(r)
    {
      var x := from[k];
      assert x in from;
      var r1 := AddShortfall(p, r, x.station, x.idx, x.surplus, x.priority);
      StationsKept(r, r1);
      assert x.station in RecordStations(r1) by {
        var y :| y in r1 && y.station == x.station;
        var j :| 0 <= j < |r1| && r1[j] == y;
      }
      r := r1;
      k := k + 1;
    }
    forall x | x in from ensures x.station in RecordStations(r) {
      var i :| 0 <= i < |from| && from[i] == x;
      assert from[i].station in RecordStations(r);
    }
  }

  /** The stations a list of records names. */
  function RecordStations(l: seq<UnsatRecord>): set<int> {
    set j | 0 <= j < |l| :: l[j].station
  }

  /** A list that keeps the stations of another, place by place, names all of them. */
  lemma StationsKept(l: seq<UnsatRecord>, r: seq<UnsatRecord>)
    requires |l| <= |r| && forall j :: 0 <= j < |l| ==> r[j].station == l[j].station
    ensures RecordStations(l) <= RecordStations(r)
  {
    forall s | s in RecordStations(l) ensures s in RecordStations(r) {
      var j :| 0 <= j < |l| && l[j].station == s;
      assert r[j].station == s;
    }
  }

  /**
   * What a greedy pass over `route` from the given stock yields: a plan
   * within capacity visiting the route's stations, a stock that stays
   * within the stations' capacities, broken bikes only taken away, stations
   * off the route untouched, every station's stock changed by exactly what
   * the plan loads and unloads there, and well-formed unsatisfied lists.
   */
  ghost predicate GreedyOk(p: Params, inst: Instance, route: seq<int>, usable: seq<int>, broken: seq<int>, g: Greedy)
    requires |inst.networkInfo| == p.nbClients + 1 && |usable| == p.nbClients + 1 && |broken| == p.nbClients + 1
  {
    && Shaped(p, g) && StationsOf(g.plan) == route && PlanOk(g.plan, p.vehicleCapacity)
    && StockOk(p, inst, g.usable, g.broken)
    && (forall s :: 0 <= s <= p.nbClients ==> g.broken[s] <= broken[s])
    && (forall s :: 0 <= s <= p.nbClients && s !in route ==> g.usable[s] == usable[s] && g.broken[s] == broken[s])
    && (forall s :: 1 <= s <= p.nbClients ==>
          g.usable[s] == usable[s] - Tally(g.plan, LoadedUAt(s)) + Tally(g.plan, UnloadedUAt(s)))
    && (forall s :: 1 <= s <= p.nbClients ==> g.broken[s] == broken[s] - Tally(g.plan, LoadedBAt(s)))
    && SourcesOk(p, g.ldU, g.plan) && ListOk(p, g.ldB) && ListOk(p, g.uldU) && ExtraOk(p, g.uldExtra)
  }

  /** One greedy pass over `route` from an empty truck and empty lists (Utils.cpp:367-378, 419-426). */
  method GreedyFrom(p: Params, inst: Instance, route: seq<int>, usable: seq<int>, broken: seq<int>, maxOp: seq<real>)
    returns (g: Greedy)
    requires ValidParams(p) && |inst.networkInfo| == p.nbClients + 1
    requires |usable| == p.nbClients + 1 && |broken| == p.nbClients + 1 && |maxOp| == p.nbClients + 1
    requires forall k :: 0 <= k < |route| ==> 0 <= route[k] <= p.nbClients
    requires |route| >= 1 && route[0] == 0
    requires StockOk(p, inst, usable, broken)
    requires forall k :: 0 <= k < |route| && 1 <= route[k] <= p.nbClients ==> maxOp[route[k]] >= 0.0
    ensures GreedyOk(p, inst, route, usable, broken, g)
    ensures forall s :: 0 <= s <= p.nbClients ==> g.maxOp[s] <= maxOp[s]
  {
    var g0 := Greedy(usable, broken, maxOp, 0, 0, 0, [], [], [], [], []);
    g := GreedyAssignment(p, inst, route, g0);
  }

  /**
   * The greedy pass's second run (Utils.cpp:380-427): the time freed by
   * stations that unloaded usable bikes is handed out by priority to the
   * stations left unsatisfied, and when there is any, the greedy pass runs
   * again with the new time limits.
   */
  method ReassignExtra(p: Params, inst: Instance, route: seq<int>, usable: seq<int>, broken: seq<int>, maxOp0: seq<real>,
                       g: Greedy)
    returns (g': Greedy)
    requires ValidParams(p) && |inst.networkInfo| == p.nbClients + 1
    requires |usable| == p.nbClients + 1 && |broken| == p.nbClients + 1 && |maxOp0| == p.nbClients + 1
    requires forall k :: 0 <= k < |route| ==> 0 <= route[k] <= p.nbClients
    requires |route| >= 1 && route[0] == 0
    requires StockOk(p, inst, usable, broken)
    requires forall k :: 0 <= k < |route| && 1 <= route[k] <= p.nbClients ==> maxOp0[route[k]] >= 0.0
    requires GreedyOk(p, inst, route, usable, broken, g)
    ensures GreedyOk(p, inst, route, usable, broken, g')
  {
    g' := g;
    var m, extra := ReclaimExtra(p, maxOp0, g.uldExtra);
    assert ListOk(p, g.ldU) by {
      forall x | x in g.ldU ensures RecOk(p, x) {
        assert SourceOk(p, x, g.plan);
      }
    }
    var merged := MergeRecords(p, g.ldU, g.uldU);
    merged := MergeRecords(p, merged, g.ldB);
    if extra > 0.0 {
      var sorted := SortBy(merged, NegPriority);
      assert ListOk(p, sorted) by {
        forall x | x in sorted ensures RecOk(p, x) {
          assert x in multiset(sorted);
        }
      }
      var left;
      m, left := GrantExtra(p, m, sorted, extra);
      g' := GreedyFrom(p, inst, route, usable, broken, m);
    }
  }

  /**
   * assignTruckScheme (Utils.cpp:363-430). getMaxOpTime may shorten the
   * route (it takes it by reference), so the adjusted route is returned with
   * the schedule, as are the stock levels the last pass leaves behind.
   */
  method AssignTruckScheme(p: Params, inst: Instance, route: seq<int>, usable: seq<int>, broken: seq<int>)
    returns (plan: seq<TruckEntry>, adjusted: seq<int>, newUsable: seq<int>, newBroken: seq<int>)
    requires ValidParams(p) && ValidInstance(inst, p)
    requires |usable| == p.nbClients + 1 && |broken| == p.nbClients + 1 && StockOk(p, inst, usable, broken)
    requires RouteIds(p, route) && |route| >= 1 && route[0] == 0
    ensures |adjusted| >= 1 && adjusted[0] == 0 && RouteIds(p, adjusted)
    ensures multiset(adjusted) <= multiset(route) && multiset(adjusted)[0] == multiset(route)[0]
    ensures DepotEnded(route) ==> DepotEnded(adjusted)
    ensures StationsOf(plan) == adjusted && PlanOk(plan, p.vehicleCapacity)
    ensures |newUsable| == |usable| && |newBroken| == |broken| && StockOk(p, inst, newUsable, newBroken)
    ensures forall s :: 0 <= s <= p.nbClients ==> newBroken[s] <= broken[s]
    ensures forall s :: 0 <= s <= p.nbClients && s !in adjusted ==> newUsable[s] == usable[s] && newBroken[s] == broken[s]
    ensures forall s :: 1 <= s <= p.nbClients ==>
              newUsable[s] == usable[s] - Tally(plan, LoadedUAt(s)) + Tally(plan, UnloadedUAt(s))
    ensures forall s :: 1 <= s <= p.nbClients ==> newBroken[s] == broken[s] - Tally(plan, LoadedBAt(s))
  {
    var maxOp0, pv, op;
    maxOp0, pv, adjusted, op := GetMaxOpTime(p, usable, broken, route, false, inst);
    forall k | 0 <= k < |adjusted| && 1 <= adjusted[k] <= p.nbClients ensures maxOp0[adjusted[k]] >= 0.0 {
      if op < SingleOperatingTime(p, false) {
        assert false;
      }
    }
    var g := GreedyFrom(p, inst, adjusted, usable, broken, maxOp0);
    g := ReassignExtra(p, inst, adjusted, usable, broken, maxOp0, g);
    plan, newUsable, newBroken := g.plan, g.usable, g.broken;
  }
}
