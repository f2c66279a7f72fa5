/*
 * The truck schedule compiler (helpers/Utils.cpp: loadBroken, loadUsable,
 * suppLoadBroken, unloadUsable, adjustDepotLoading,
 * assignUnloadingQuantities, assignLoadingQuantities, greedyAssignment,
 * assignTruckScheme). A truck drives its route once; at a station above its
 * target it loads broken bikes and the usable surplus, at a station at or
 * below its target it loads broken bikes and unloads usable bikes, and at the
 * depot it drops everything. Each operation is limited by the stock, the
 * truck's room and the operating time allotted to the station. When the truck
 * arrives with too few usable bikes, bikes that earlier stations could not
 * give for lack of time are loaded after the fact, and then the last depot
 * stop is made to load more.
 *
 * The program passes the stock, the allotted times, the truck's load, the
 * "unsatisfied" lists and the schedule by reference; here they form one
 * state value that every step takes and returns.
 */
module TruckAssignment {
  import opened Instances
  import opened Schemes
  import opened UnsatLists
  import opened TimeHelper
  import opened Sorting
  import opened Routes
  import opened TimeAllotment

  /** Everything the greedy pass reads and updates. */
  datatype Greedy = Greedy(
    usable: seq<int>,
    broken: seq<int>,
    maxOp: seq<real>,
    truckUsable: int,
    truckBroken: int,
    prevDepot: int,
    ldU: seq<UnsatRecord>,
    ldB: seq<UnsatRecord>,
    uldU: seq<UnsatRecord>,
    uldExtra: seq<ExtraRecord>,
    plan: seq<TruckEntry>)

  function Min(a: int, b: int): int { if a <= b then a else b }

  /** The time it takes to load and later unload n bikes. */
  function LoadTime(p: Params, n: int): real {
    (2 * n * p.loadingTime) as real
  }

  /** The truck table's priority of station s at the current stock. */
  function Prio(inst: Instance, usable: seq<int>, broken: seq<int>, s: int): real
    requires 0 <= s < |usable| && s < |broken|
  {
    StationPriority(inst, usable, broken, s, false)
  }

  /** The vectors are indexed by station. */
  predicate Shaped(p: Params, g: Greedy) {
    |g.usable| == p.nbClients + 1 && |g.broken| == p.nbClients + 1 && |g.maxOp| == p.nbClients + 1
  }

  /** No station holds negative broken stock, and none holds more bikes than its capacity. */
  predicate StockOk(p: Params, inst: Instance, usable: seq<int>, broken: seq<int>)
    requires |inst.networkInfo| == p.nbClients + 1 && |usable| == p.nbClients + 1 && |broken| == p.nbClients + 1
  {
    forall s :: 1 <= s <= p.nbClients ==> broken[s] >= 0 && usable[s] + broken[s] <= Capacity(inst, s)
  }

  /** The truck's load is within its capacity. */
  predicate TruckLoadOk(p: Params, g: Greedy) {
    0 <= g.truckUsable && 0 <= g.truckBroken && g.truckUsable + g.truckBroken <= p.vehicleCapacity
  }

  /** The stations of a schedule, in order. */
  function StationsOf(plan: seq<TruckEntry>): (r: seq<int>)
    ensures |r| == |plan| && forall k :: 0 <= k < |plan| ==> r[k] == plan[k].station
  {
    seq(|plan|, k requires 0 <= k < |plan| => plan[k].station)
  }

  /** The sum of f over the entries of a schedule. */
  function Tally(plan: seq<TruckEntry>, f: TruckEntry -> int): int {
    if plan == [] then 0 else Tally(plan[..|plan| - 1], f) + f(plan[|plan| - 1])
  }

  /** Two schedules of one length whose entries agree under f except at i and j differ in their tallies by the differences there. */
  lemma {:induction false} TallyDiff(a: seq<TruckEntry>, b: seq<TruckEntry>, f: TruckEntry -> int, i: int, j: int)
    requires |a| == |b| && 0 <= i < |a| && 0 <= j < |a|
    requires forall k :: 0 <= k < |a| && k != i && k != j ==> f(a[k]) == f(b[k])
    ensures Tally(b, f) - Tally(a, f) == (f(b[i]) - f(a[i])) + (if j != i then f(b[j]) - f(a[j]) else 0)
    decreases |a|
  {
    var n := |a| - 1;
    var a', b' := a[..n], b[..n];
    if n == i && n == j {
      if n > 0 {
        TallyDiff(a', b', f, 0, 0);
      } else {
        assert a' == [] && b' == [];
      }
    } else if n == i {
      TallyDiff(a', b', f, j, j);
    } else if n == j {
      TallyDiff(a', b', f, i, i);
    } else {
      TallyDiff(a', b', f, i, j);
    }
  }

  /** Usable bikes loaded at station s, entry by entry. */
  function LoadedUAt(s: int): TruckEntry -> int {
    (e: TruckEntry) => if e.station == s then e.loadU else 0
  }

  /** Usable bikes unloaded at station s, entry by entry. */
  function UnloadedUAt(s: int): TruckEntry -> int {
    (e: TruckEntry) => if e.station == s then e.unloadU else 0
  }

  /** Broken bikes loaded at station s, entry by entry. */
  function LoadedBAt(s: int): TruckEntry -> int {
    (e: TruckEntry) => if e.station == s then e.loadB else 0
  }

  /** What the truck carries when it reaches entry k: nothing before the first entry. */
  function ArrivingUQ(plan: seq<TruckEntry>, k: int): int
    requires 0 <= k <= |plan|
  {
    if k == 0 then 0 else plan[k - 1].truckUQ
  }

  function ArrivingBQ(plan: seq<TruckEntry>, k: int): int
    requires 0 <= k <= |plan|
  {
    if k == 0 then 0 else plan[k - 1].truckBQ
  }

  /**
   * Entry k of a schedule is physically sound: quantities are non-negative,
   * the load leaving is the load arriving plus what was loaded minus what was
   * unloaded, the truck is never over capacity, a station either loads or
   * unloads usable bikes, broken bikes are only unloaded at the depot, and the
   * truck leaves the depot without broken bikes.
   */
  predicate EntryOk(plan: seq<TruckEntry>, k: int, cap: int)
    requires 0 <= k < |plan|
  {
    var e := plan[k];
    && e.loadU >= 0 && e.loadB >= 0 && e.unloadU >= 0 && e.unloadB >= 0
    && e.truckUQ == ArrivingUQ(plan, k) + e.loadU - e.unloadU
    && e.truckBQ == ArrivingBQ(plan, k) + e.loadB - e.unloadB
    && 0 <= e.truckUQ && 0 <= e.truckBQ && e.truckUQ + e.truckBQ <= cap
    && (e.loadU == 0 || e.unloadU == 0)
    && (if e.station == 0 then e.loadB == 0 && e.truckBQ == 0 else e.unloadB == 0)
  }

  predicate PlanOk(plan: seq<TruckEntry>, cap: int) {
    forall k :: 0 <= k < |plan| ==> EntryOk(plan, k, cap)
  }

  /** The room the truck has when it leaves entry k. */
  function Room(plan: seq<TruckEntry>, k: int, cap: int): int
    requires 0 <= k < |plan|
  {
    cap - plan[k].truckUQ - plan[k].truckBQ
  }

  /** A record of a list of stations that could not be fully served. */
  predicate RecOk(p: Params, x: UnsatRecord) {
    1 <= x.station <= p.nbClients && x.surplus > 0
  }

  predicate ListOk(p: Params, l: seq<UnsatRecord>) {
    forall x :: x in l ==> RecOk(p, x)
  }

  /** A record of unloaded usable bikes: an unloading station and a non-negative time. */
  predicate ExtraOk(p: Params, l: seq<ExtraRecord>) {
    forall x :: x in l ==> 1 <= x.station <= p.nbClients && x.time >= 0.0
  }

  /**
   * A record of usable surplus left at a loading station points at that
   * station's entry of the schedule, which loads and does not unload.
   */
  predicate SourceOk(p: Params, x: UnsatRecord, plan: seq<TruckEntry>) {
    RecOk(p, x) && 0 <= x.idx < |plan| && plan[x.idx].station == x.station && plan[x.idx].unloadU == 0
  }

  predicate SourcesOk(p: Params, l: seq<UnsatRecord>, plan: seq<TruckEntry>) {
    forall x :: x in l ==> SourceOk(p, x, plan)
  }

  /** As SourceOk, where a record may also point at the entry of `cur` about to be appended. */
  predicate PendingOk(p: Params, x: UnsatRecord, plan: seq<TruckEntry>, cur: int) {
    SourceOk(p, x, plan) || (RecOk(p, x) && x.idx == |plan| && x.station == cur)
  }

  /** The smallest room the truck has from entry `from` to the end of the schedule. */
  method MinRoomFrom(plan: seq<TruckEntry>, from: int, cap: int) returns (m: int)
    requires 0 <= from < |plan|
    ensures forall k :: from <= k < |plan| ==> m <= Room(plan, k, cap)
    ensures exists k :: from <= k < |plan| && m == Room(plan, k, cap)
  {
    m := Room(plan, from, cap);
    var i := from + 1;
    ghost var at := from;
    while i < |plan|
      invariant from < i <= |plan| && from <= at < i && m == Room(plan, at, cap)
      invariant forall k :: from <= k < i ==> m <= Room(plan, k, cap)
    {
      if Room(plan, i, cap) < m {
        m, at := Room(plan, i, cap), i;
      }
      i := i + 1;
    }
  }

  /**
   * Loads `a` more usable bikes at entry idx: its loading grows by `a` and
   * the truck carries `a` more from there to the end of the schedule.
   */
  method RaiseFrom(plan: seq<TruckEntry>, idx: int, a: int) returns (r: seq<TruckEntry>)
    requires 0 <= idx < |plan|
    ensures |r| == |plan|
    ensures forall k :: 0 <= k < idx ==> r[k] == plan[k]
    ensures r[idx] == plan[idx].(loadU := plan[idx].loadU + a, truckUQ := plan[idx].truckUQ + a)
    ensures forall k :: idx < k < |r| ==> r[k] == plan[k].(truckUQ := plan[k].truckUQ + a)
  {
    r := plan[idx := plan[idx].(loadU := plan[idx].loadU + a)];
    var i := idx;
    while i < |r|
      invariant idx <= i <= |r| == |plan|
      invariant forall k :: 0 <= k < idx ==> r[k] == plan[k]
      invariant i == idx ==> r[idx] == plan[idx].(loadU := plan[idx].loadU + a)
      invariant i > idx ==> r[idx] == plan[idx].(loadU := plan[idx].loadU + a, truckUQ := plan[idx].truckUQ + a)
      invariant forall k :: idx < k < i ==> r[k] == plan[k].(truckUQ := plan[k].truckUQ + a)
      invariant forall k :: i <= k < |r| && k != idx ==> r[k] == plan[k]
    {
      r := r[i := r[i].(truckUQ := r[i].truckUQ + a)];
      i := i + 1;
    }
  }

  /** Raising the usable load from an entry that does not unload, by no more than the smallest room, keeps the schedule sound. */
  lemma RaiseKeepsPlan(plan: seq<TruckEntry>, idx: int, a: int, r: seq<TruckEntry>, cap: int)
    requires PlanOk(plan, cap) && 0 <= idx < |plan| && plan[idx].unloadU == 0 && 0 <= a
    requires forall k :: idx <= k < |plan| ==> a <= Room(plan, k, cap)
    requires |r| == |plan|
    requires forall k :: 0 <= k < idx ==> r[k] == plan[k]
    requires r[idx] == plan[idx].(loadU := plan[idx].loadU + a, truckUQ := plan[idx].truckUQ + a)
    requires forall k :: idx < k < |r| ==> r[k] == plan[k].(truckUQ := plan[k].truckUQ + a)
    ensures PlanOk(r, cap)
  {
    forall k | 0 <= k < |r| ensures EntryOk(r, k, cap) {
      assert EntryOk(plan, k, cap);
      if k >= idx {
        assert a <= Room(plan, k, cap);
      }
      if k > idx {
        assert r[k - 1].truckUQ == plan[k - 1].truckUQ + a;
        assert r[k - 1].truckBQ == plan[k - 1].truckBQ;
      } else if k == idx && k > 0 {
        assert r[k - 1] == plan[k - 1];
      }
    }
  }

  /** Recomputes the load the truck leaves each entry with, from entry `from` + 1 to the end. */
  method Recompute(plan: seq<TruckEntry>, from: int) returns (r: seq<TruckEntry>)
    requires 0 <= from < |plan|
    ensures |r| == |plan|
    ensures forall k :: 0 <= k <= from ==> r[k] == plan[k]
    ensures forall k :: from < k < |r| ==>
      r[k] == plan[k].(truckUQ := r[k - 1].truckUQ + plan[k].loadU - plan[k].unloadU,
                       truckBQ := r[k - 1].truckBQ + plan[k].loadB - plan[k].unloadB)
  {
    r := plan;
    var i := from + 1;
    while i < |r|
      invariant from < i <= |r| == |plan|
      invariant forall k :: 0 <= k <= from ==> r[k] == plan[k]
      invariant forall k :: i <= k < |r| ==> r[k] == plan[k]
      invariant forall k :: from < k < i ==>
        r[k] == plan[k].(truckUQ := r[k - 1].truckUQ + plan[k].loadU - plan[k].unloadU,
                         truckBQ := r[k - 1].truckBQ + plan[k].loadB - plan[k].unloadB)
    {
      r := r[i := r[i].(truckUQ := r[i - 1].truckUQ + r[i].loadU - r[i].unloadU,
                        truckBQ := r[i - 1].truckBQ + r[i].loadB - r[i].unloadB)];
      i := i + 1;
    }
  }

  /**
   * When entry `from` carries d more usable bikes than before and nothing
   * after it changes, recomputing the loads shifts every later usable load
   * by d and leaves the broken loads as they were.
   */
  lemma {:induction false} RecomputeShifts(plan: seq<TruckEntry>, r: seq<TruckEntry>, from: int, d: int, cap: int, k: int)
    requires PlanOk(plan, cap) && 0 <= from < k < |plan| && |r| == |plan|
    requires r[from].truckUQ == plan[from].truckUQ + d && r[from].truckBQ == plan[from].truckBQ
    requires forall j :: from < j < |r| ==>
      r[j] == plan[j].(truckUQ := r[j - 1].truckUQ + plan[j].loadU - plan[j].unloadU,
                       truckBQ := r[j - 1].truckBQ + plan[j].loadB - plan[j].unloadB)
    ensures r[k] == plan[k].(truckUQ := plan[k].truckUQ + d)
    decreases k
  {
    if k > from + 1 {
      RecomputeShifts(plan, r, from, d, cap, k - 1);
    }
    assert EntryOk(plan, k, cap);
  }

  /** Some record of `l` for station s carries the surplus n. */
  predicate Recorded(l: seq<UnsatRecord>, s: int, n: int) {
    exists x :: x in l && x.station == s && x.surplus == n
  }

  /** What unSatUpdateOverwrite leaves for the station it writes a non-zero surplus for. */
  lemma OverwriteRecords(l: seq<UnsatRecord>, station: int, idx: int, surplus: int, priority: real, r: seq<UnsatRecord>)
    requires surplus != 0 && FindFirst(l, UnsatStation, station) == |l| ==>
      r == l + [UnsatRecord(station, idx, surplus, priority)]
    requires surplus != 0 && FindFirst(l, UnsatStation, station) < |l| ==>
      var k := FindFirst(l, UnsatStation, station);
      r == l[k := UnsatRecord(station, l[k].idx, surplus, priority)]
    ensures surplus != 0 ==> Recorded(r, station, surplus)
  {
    if surplus != 0 {
      var k := FindFirst(l, UnsatStation, station);
      assert r[if k < |l| then k else |l|] in r;
    }
  }

  /**
   * suppLoadBroken (Utils.cpp:232-246): loads as many broken bikes of the
   * station as the truck's room and the station's time allow, and records
   * the ones left for lack of time. loadBroken (Utils.cpp:314-331) is the
   * same step behind a check that the time allows one bike.
   */
  method SuppLoadBroken(p: Params, inst: Instance, cur: int, g: Greedy) returns (load: int, r: Greedy)
    requires ValidParams(p) && Shaped(p, g) && 1 <= cur <= p.nbClients
    requires g.maxOp[cur] >= 0.0 && g.broken[cur] >= 0 && TruckLoadOk(p, g)
    requires ListOk(p, g.ldB)
    ensures 0 <= load <= g.broken[cur]
    ensures g.truckUsable + g.truckBroken + load <= p.vehicleCapacity
    ensures r == g.(broken := g.broken[cur := g.broken[cur] - load],
                    maxOp := g.maxOp[cur := g.maxOp[cur] - LoadTime(p, load)],
                    truckBroken := g.truckBroken + load, ldB := r.ldB)
    ensures r.maxOp[cur] >= 0.0 && ListOk(p, r.ldB)
    ensures load == g.broken[cur] || g.truckUsable + g.truckBroken + load == p.vehicleCapacity ||
            r.maxOp[cur] < LoadTime(p, 1)
    ensures var left := Min(g.broken[cur], p.vehicleCapacity - g.truckUsable - g.truckBroken) - load;
      (left == 0 ==> r.ldB == g.ldB) && (left > 0 ==> Recorded(r.ldB, cur, left))
  {
    var noTime := Min(g.broken[cur], p.vehicleCapacity - g.truckUsable - g.truckBroken);
    var byTime := MaxLoadQByTime(p.loadingTime, g.maxOp[cur]);
    MaxLoadQNonNegative(p.loadingTime, g.maxOp[cur]);
    LoadLeavesLessThanOne(p.loadingTime, g.maxOp[cur]);
    load := Min(noTime, byTime);
    LoadTimeFits(p.loadingTime, g.maxOp[cur], load);
    var broken := g.broken[cur := g.broken[cur] - load];
    var left := Max(noTime - byTime, 0);
    var ldB := UnSatUpdateOverwrite(g.ldB, cur, |g.plan|, left, Prio(inst, g.usable, broken, cur));
    OverwriteKeeps(g.ldB, cur, |g.plan|, left, Prio(inst, g.usable, broken, cur), ldB, x => RecOk(p, x));
    OverwriteRecords(g.ldB, cur, |g.plan|, left, Prio(inst, g.usable, broken, cur), ldB);
    r := g.(broken := broken, maxOp := g.maxOp[cur := g.maxOp[cur] - LoadTime(p, load)],
            truckBroken := g.truckBroken + load, ldB := ldB);
  }

  /** loadBroken (Utils.cpp:314-331): nothing when the station's time does not cover one bike. */
  method LoadBroken(p: Params, inst: Instance, cur: int, g: Greedy) returns (load: int, r: Greedy)
    requires ValidParams(p) && Shaped(p, g) && 1 <= cur <= p.nbClients
    requires g.maxOp[cur] >= 0.0 && g.broken[cur] >= 0 && TruckLoadOk(p, g)
    requires ListOk(p, g.ldB)
    ensures 0 <= load <= g.broken[cur]
    ensures g.truckUsable + g.truckBroken + load <= p.vehicleCapacity
    ensures r == g.(broken := g.broken[cur := g.broken[cur] - load],
                    maxOp := g.maxOp[cur := g.maxOp[cur] - LoadTime(p, load)],
                    truckBroken := g.truckBroken + load, ldB := r.ldB)
    ensures r.maxOp[cur] >= 0.0 && ListOk(p, r.ldB)
    ensures g.maxOp[cur] < LoadTime(p, 1) ==> r == g
    ensures g.maxOp[cur] >= LoadTime(p, 1) ==>
      load == g.broken[cur] || g.truckUsable + g.truckBroken + load == p.vehicleCapacity || r.maxOp[cur] < LoadTime(p, 1)
  {
    load, r := 0, g;
    if g.maxOp[cur] >= LoadTime(p, 1) {
      load, r := SuppLoadBroken(p, inst, cur, g);
    }
  }

  /**
   * loadUsable (Utils.cpp:347-361): loads the usable surplus above the
   * target as far as the truck's room and the station's time allow, and
   * records what is left for lack of time against the entry being built.
   */
  method LoadUsable(p: Params, inst: Instance, cur: int, g: Greedy) returns (load: int, r: Greedy)
    requires ValidParams(p) && Shaped(p, g) && |inst.networkInfo| == p.nbClients + 1 && 1 <= cur <= p.nbClients
    requires g.maxOp[cur] >= 0.0 && g.usable[cur] > Target(inst, cur) && TruckLoadOk(p, g)
    requires SourcesOk(p, g.ldU, g.plan)
    ensures 0 <= load <= g.usable[cur] - Target(inst, cur)
    ensures g.truckUsable + load + g.truckBroken <= p.vehicleCapacity
    ensures r == g.(usable := g.usable[cur := g.usable[cur] - load],
                    maxOp := g.maxOp[cur := g.maxOp[cur] - LoadTime(p, load)],
                    truckUsable := g.truckUsable + load, ldU := r.ldU)
    ensures r.maxOp[cur] >= 0.0
    ensures forall x :: x in r.ldU ==> PendingOk(p, x, g.plan, cur)
    ensures load == g.usable[cur] - Target(inst, cur) || g.truckUsable + load + g.truckBroken == p.vehicleCapacity ||
            r.maxOp[cur] < LoadTime(p, 1)
    ensures var left := Min(g.usable[cur] - Target(inst, cur), p.vehicleCapacity - g.truckUsable - g.truckBroken) - load;
      (left == 0 ==> r.ldU == g.ldU) && (left > 0 ==> Recorded(r.ldU, cur, left))
  {
    var noTime := Min(g.usable[cur] - Target(inst, cur), p.vehicleCapacity - g.truckUsable - g.truckBroken);
    var byTime := MaxLoadQByTime(p.loadingTime, g.maxOp[cur]);
    MaxLoadQNonNegative(p.loadingTime, g.maxOp[cur]);
    LoadLeavesLessThanOne(p.loadingTime, g.maxOp[cur]);
    load := Min(noTime, byTime);
    LoadTimeFits(p.loadingTime, g.maxOp[cur], load);
    var usable := g.usable[cur := g.usable[cur] - load];
    var left := Max(noTime - byTime, 0);
    var ldU := UnSatUpdateOverwrite(g.ldU, cur, |g.plan|, left, Prio(inst, usable, g.broken, cur));
    OverwriteKeeps(g.ldU, cur, |g.plan|, left, Prio(inst, usable, g.broken, cur), ldU, x => PendingOk(p, x, g.plan, cur));
    OverwriteRecords(g.ldU, cur, |g.plan|, left, Prio(inst, usable, g.broken, cur), ldU);
    r := g.(usable := usable, maxOp := g.maxOp[cur := g.maxOp[cur] - LoadTime(p, load)],
            truckUsable := g.truckUsable + load, ldU := ldU);
  }

  /**
   * assignLoadingQuantities (Utils.cpp:333-345): at a station above its
   * target, broken bikes first, then the usable surplus.
   */
  method AssignLoadingQuantities(p: Params, inst: Instance, cur: int, g: Greedy)
    returns (usableLoad: int, brokenLoad: int, r: Greedy)
    requires ValidParams(p) && Shaped(p, g) && |inst.networkInfo| == p.nbClients + 1 && 1 <= cur <= p.nbClients
    requires g.maxOp[cur] >= 0.0 && g.broken[cur] >= 0 && g.usable[cur] > Target(inst, cur) && TruckLoadOk(p, g)
    requires SourcesOk(p, g.ldU, g.plan) && ListOk(p, g.ldB)
    ensures 0 <= usableLoad <= g.usable[cur] - Target(inst, cur) && 0 <= brokenLoad <= g.broken[cur]
    ensures r.truckUsable == g.truckUsable + usableLoad && r.truckBroken == g.truckBroken + brokenLoad
    ensures TruckLoadOk(p, r)
    ensures r.usable == g.usable[cur := g.usable[cur] - usableLoad]
    ensures r.broken == g.broken[cur := g.broken[cur] - brokenLoad]
    ensures r.maxOp == g.maxOp[cur := g.maxOp[cur] - LoadTime(p, usableLoad) - LoadTime(p, brokenLoad)]
    ensures r.maxOp[cur] >= 0.0
    ensures r.plan == g.plan && r.prevDepot == g.prevDepot && r.uldU == g.uldU && r.uldExtra == g.uldExtra
    ensures forall x :: x in r.ldU ==> PendingOk(p, x, g.plan, cur)
    ensures ListOk(p, r.ldB)
  {
    var g1;
    brokenLoad, g1 := LoadBroken(p, inst, cur, g);
    usableLoad, r := LoadUsable(p, inst, cur, g1);
  }

  /**
   * Tops up the last depot stop so that the truck brings `dd` more usable
   * bikes (adjustDepotLoading, Utils.cpp:147-205). The extra bikes are
   * limited by the smallest room of the truck since that depot and by the
   * station's time, which pays for the bikes the depot now loads; what the
   * time leaves short is recorded for the station. The depot's net usable
   * loading grows by the amount and every later load with it.
   */
  method AdjustDepotLoading(p: Params, dd: int, cur: int, prio: real, g: Greedy) returns (ep: int, r: Greedy)
    requires ValidParams(p) && |g.maxOp| == p.nbClients + 1 && 1 <= cur <= p.nbClients
    requires dd > 0 && g.maxOp[cur] >= 0.0
    requires PlanOk(g.plan, p.vehicleCapacity) && 0 <= g.prevDepot < |g.plan| && g.plan[g.prevDepot].station == 0
    requires ListOk(p, g.uldU)
    ensures 0 <= ep <= dd
    ensures |r.maxOp| == |g.maxOp| && r == g.(plan := r.plan, maxOp := g.maxOp[cur := r.maxOp[cur]], uldU := r.uldU)
    ensures 0.0 <= r.maxOp[cur] <= g.maxOp[cur]
    ensures |r.plan| == |g.plan| && PlanOk(r.plan, p.vehicleCapacity)
    ensures forall k :: 0 <= k < g.prevDepot ==> r.plan[k] == g.plan[k]
    ensures var d := g.plan[g.prevDepot];
      r.plan[g.prevDepot] == d.(loadU := r.plan[g.prevDepot].loadU, unloadU := r.plan[g.prevDepot].unloadU,
                                truckUQ := d.truckUQ + ep) &&
      r.plan[g.prevDepot].loadU - r.plan[g.prevDepot].unloadU == d.loadU - d.unloadU + ep
    ensures forall k :: g.prevDepot < k < |g.plan| ==> r.plan[k] == g.plan[k].(truckUQ := g.plan[k].truckUQ + ep)
    ensures ListOk(p, r.uldU) && SameStops(g.plan, r.plan)
    ensures ep == dd || (exists k :: g.prevDepot <= k < |r.plan| && Room(r.plan, k, p.vehicleCapacity) == 0) ||
            r.maxOp[cur] < LoadTime(p, 1)
  {
    var pd, cap := g.prevDepot, p.vehicleCapacity;
    var minRoom := MinRoomFrom(g.plan, pd, cap);
    var at :| pd <= at < |g.plan| && minRoom == Room(g.plan, at, cap);
    assert EntryOk(g.plan, at, cap);
    var d := g.plan[pd];
    assert EntryOk(g.plan, pd, cap);
    var fd := if d.loadU > 0 && d.unloadU == 0 then d.loadU else if d.loadU == 0 && d.unloadU > 0 then -d.unloadU else 0;
    assert fd == d.loadU - d.unloadU;
    var charged, short;
    ep, charged, short := DepotAmount(p, dd, minRoom, fd, g.maxOp[cur]);
    var uldU := AddShortfall(p, g.uldU, cur, |g.plan|, short, prio);
    var maxOpCur := g.maxOp[cur] - LoadTime(p, charged);
    var plan := TopUpDepot(g.plan, pd, Max(fd + ep, 0), Max(-fd - ep, 0), ep, cap);
    r := g.(plan := plan, maxOp := g.maxOp[cur := maxOpCur], uldU := uldU);
    if ep == minRoom {
      assert Room(r.plan, at, cap) == 0;
    }
  }

  /** unSatUpdate with a non-negative amount for a station keeps a list of stations left short well-formed. */
  method AddShortfall(p: Params, l: seq<UnsatRecord>, station: int, idx: int, surplus: int, priority: real)
    returns (r: seq<UnsatRecord>)
    requires ListOk(p, l) && 1 <= station <= p.nbClients && surplus >= 0
    ensures ListOk(p, r)
    ensures surplus == 0 ==> r == l
    ensures surplus > 0 ==> exists x :: x in r && x.station == station
    ensures |l| <= |r| && forall j :: 0 <= j < |l| ==> r[j].station == l[j].station
  {
    r := UnSatUpdate(l, station, idx, surplus, priority);
    UpdateKeeps(l, station, idx, surplus, priority, r, x => RecOk(p, x));
    if surplus > 0 {
      var k := FindFirst(l, UnsatStation, station);
      assert r[if k < |l| then k else |l|] in r;
    }
  }

  /**
   * The amounts of adjustDepotLoading (Utils.cpp:167-203): `ep` extra bikes,
   * bounded by the demand, the room and what the time pays for, where a
   * depot that used to unload `-fd` bikes gives those back first at no
   * cost; the time `charged` for the bikes the depot now loads; and the
   * demand left `short` for lack of time.
   */
  method DepotAmount(p: Params, dd: int, minRoom: int, fd: int, maxOpCur: real)
    returns (ep: int, charged: int, short: int)
    requires ValidParams(p) && dd > 0 && minRoom >= 0 && maxOpCur >= 0.0
    ensures 0 <= ep <= dd && ep <= minRoom
    ensures charged == if fd + ep > 0 then Min(fd, 0) + ep else 0
    ensures 0 <= charged && LoadTime(p, charged) <= maxOpCur
    ensures short == Min(dd, minRoom) - ep
    ensures ep == dd || ep == minRoom || maxOpCur - LoadTime(p, charged) < LoadTime(p, 1)
  {
    var noTime := Min(dd, minRoom);
    var q := MaxLoadQByTime(p.loadingTime, maxOpCur);
    MaxLoadQNonNegative(p.loadingTime, maxOpCur);
    LoadLeavesLessThanOne(p.loadingTime, maxOpCur);
    var byTime := q - Min(fd, 0);
    short := Max(noTime - byTime, 0);
    ep := Min(noTime, byTime);
    charged := if fd + ep > 0 then Min(fd, 0) + ep else 0;
    LoadTimeFits(p.loadingTime, maxOpCur, charged);
  }

  /** Rewrites the usable loading of the depot stop pd so that the truck leaves it, and every later stop, with ep more usable bikes. */
  method TopUpDepot(plan: seq<TruckEntry>, pd: int, loadU: int, unloadU: int, ep: int, cap: int) returns (r: seq<TruckEntry>)
    requires PlanOk(plan, cap) && 0 <= pd < |plan| && plan[pd].station == 0 && 0 <= ep
    requires forall k :: pd <= k < |plan| ==> ep <= Room(plan, k, cap)
    requires loadU >= 0 && unloadU >= 0 && (loadU == 0 || unloadU == 0)
    requires loadU - unloadU == plan[pd].loadU - plan[pd].unloadU + ep
    ensures |r| == |plan| && PlanOk(r, cap)
    ensures forall k :: 0 <= k < pd ==> r[k] == plan[k]
    ensures r[pd] == plan[pd].(loadU := loadU, unloadU := unloadU, truckUQ := plan[pd].truckUQ + ep)
    ensures forall k :: pd < k < |plan| ==> r[k] == plan[k].(truckUQ := plan[k].truckUQ + ep)
  {
    var d := plan[pd];
    r := Recompute(plan[pd := d.(loadU := loadU, unloadU := unloadU, truckUQ := d.truckUQ + ep)], pd);
    forall k | pd < k < |r| ensures r[k] == plan[k].(truckUQ := plan[k].truckUQ + ep) {
      RecomputeShifts(plan, r, pd, ep, cap, k);
    }
    DepotRaiseKeepsPlan(plan, pd, ep, r, cap);
  }

  /** Raising the net usable loading of a depot stop and every later load by the smallest room or less keeps the schedule sound. */
  lemma DepotRaiseKeepsPlan(plan: seq<TruckEntry>, pd: int, ep: int, r: seq<TruckEntry>, cap: int)
    requires PlanOk(plan, cap) && 0 <= pd < |plan| && plan[pd].station == 0 && 0 <= ep
    requires forall k :: pd <= k < |plan| ==> ep <= Room(plan, k, cap)
    requires |r| == |plan|
    requires forall k :: 0 <= k < pd ==> r[k] == plan[k]
    requires r[pd] == plan[pd].(loadU := r[pd].loadU, unloadU := r[pd].unloadU, truckUQ := plan[pd].truckUQ + ep)
    requires r[pd].loadU >= 0 && r[pd].unloadU >= 0 && (r[pd].loadU == 0 || r[pd].unloadU == 0)
    requires r[pd].loadU - r[pd].unloadU == plan[pd].loadU - plan[pd].unloadU + ep
    requires forall k :: pd < k < |r| ==> r[k] == plan[k].(truckUQ := plan[k].truckUQ + ep)
    ensures PlanOk(r, cap)
  {
    forall k | 0 <= k < |r| ensures EntryOk(r, k, cap) {
      assert EntryOk(plan, k, cap);
      if k >= pd {
        assert ep <= Room(plan, k, cap);
      }
      if k > pd {
        assert r[k - 1].truckUQ == plan[k - 1].truckUQ + ep;
        assert r[k - 1].truckBQ == plan[k - 1].truckBQ;
      } else if k == pd && k > 0 {
        assert r[k - 1] == plan[k - 1];
      }
    }
  }

  /** unSatUpdateOverwrite with a non-negative amount for a station keeps a list of stations left short well-formed. */
  method OverwriteShortfall(p: Params, l: seq<UnsatRecord>, station: int, idx: int, surplus: int, priority: real)
    returns (r: seq<UnsatRecord>)
    requires ListOk(p, l) && 1 <= station <= p.nbClients && surplus >= 0
    ensures ListOk(p, r)
    ensures surplus == 0 ==> r == l
    ensures surplus > 0 ==> Recorded(r, station, surplus)
  {
    r := UnSatUpdateOverwrite(l, station, idx, surplus, priority);
    OverwriteKeeps(l, station, idx, surplus, priority, r, x => RecOk(p, x));
    OverwriteRecords(l, station, idx, surplus, priority, r);
  }

  /** extraUpdate with a non-negative time for a station keeps the list well-formed. */
  method AddExtra(p: Params, l: seq<ExtraRecord>, station: int, time: real) returns (r: seq<ExtraRecord>)
    requires ExtraOk(p, l) && 1 <= station <= p.nbClients && time >= 0.0
    ensures ExtraOk(p, r)
    ensures time == 0.0 ==> r == l
  {
    r := ExtraUpdate(l, station, time);
    ExtraKeeps(l, station, time, r, (x: ExtraRecord) => 1 <= x.station <= p.nbClients && x.time >= 0.0);
  }

  /**
   * Two schedules visit the same stations, load and carry the same broken
   * bikes, and their non-depot stops unload the same usable bikes: they
   * differ at most in usable loading.
   */
  predicate SameStops(a: seq<TruckEntry>, b: seq<TruckEntry>) {
    |a| == |b| &&
    forall k :: 0 <= k < |a| ==>
      && a[k].station == b[k].station && a[k].truckBQ == b[k].truckBQ && a[k].loadB == b[k].loadB
      && (a[k].station != 0 ==> a[k].unloadU == b[k].unloadU)
  }

  /** Schedules with the same stops unload the same usable bikes and load the same broken bikes at every station. */
  lemma SameStopsTallies(a: seq<TruckEntry>, b: seq<TruckEntry>, s: int)
    requires SameStops(a, b) && s != 0
    ensures Tally(a, UnloadedUAt(s)) == Tally(b, UnloadedUAt(s))
    ensures Tally(a, LoadedBAt(s)) == Tally(b, LoadedBAt(s))
  {
    if |a| > 0 {
      TallyDiff(a, b, UnloadedUAt(s), 0, 0);
      TallyDiff(a, b, LoadedBAt(s), 0, 0);
    }
  }

  /**
   * Usable stock moved between stations exactly as the schedule's usable
   * loading changed, and `cur` gained `extra` on top: at every station the
   * stock plus what the schedule loads there only changes at `cur`, by
   * `extra`.
   */
  ghost predicate Shifted(g: Greedy, r: Greedy, cur: int, extra: int) {
    |r.usable| == |g.usable| &&
    forall s :: 1 <= s < |g.usable| ==>
      r.usable[s] + Tally(r.plan, LoadedUAt(s)) == g.usable[s] + Tally(g.plan, LoadedUAt(s)) + (if s == cur then extra else 0)
  }

  lemma ShiftedTrans(g: Greedy, m: Greedy, r: Greedy, cur: int, e1: int, e2: int)
    requires Shifted(g, m, cur, e1) && Shifted(m, r, cur, e2)
    ensures Shifted(g, r, cur, e1 + e2)
  {
  }

  /** Unloading `a` bikes at `cur` with the schedule as it was shifts the stock by `a` towards `cur`. */
  lemma ShiftedUnload(g: Greedy, r: Greedy, cur: int, a: int)
    requires 0 <= cur < |g.usable| && r.plan == g.plan && r.usable == g.usable[cur := g.usable[cur] + a]
    ensures Shifted(g, r, cur, a)
  {
  }

  /** Taking `a` bikes from the station of entry idx, loading them there and giving them to `cur` shifts the stock by `a` towards `cur`. */
  lemma RaiseShifted(g: Greedy, r: Greedy, idx: int, a: int, cur: int)
    requires 0 <= idx < |g.plan| && |r.plan| == |g.plan|
    requires forall k :: 0 <= k < idx ==> r.plan[k] == g.plan[k]
    requires r.plan[idx] == g.plan[idx].(loadU := g.plan[idx].loadU + a, truckUQ := g.plan[idx].truckUQ + a)
    requires forall k :: idx < k < |r.plan| ==> r.plan[k] == g.plan[k].(truckUQ := g.plan[k].truckUQ + a)
    requires 0 <= g.plan[idx].station < |g.usable| && 0 <= cur < |g.usable|
    requires var st := g.plan[idx].station;
             var u := g.usable[st := g.usable[st] - a];
             r.usable == u[cur := u[cur] + a]
    ensures Shifted(g, r, cur, a)
  {
    forall s | 1 <= s < |g.usable|
      ensures r.usable[s] + Tally(r.plan, LoadedUAt(s)) == g.usable[s] + Tally(g.plan, LoadedUAt(s)) + (if s == cur then a else 0)
    {
      RaiseTally(g.plan, idx, a, r.plan, s);
    }
  }

  /** Loading `a` more at entry idx raises the usable loading of its station by `a` and of no other station. */
  lemma RaiseTally(plan: seq<TruckEntry>, idx: int, a: int, r: seq<TruckEntry>, s: int)
    requires 0 <= idx < |plan| && |r| == |plan|
    requires forall k :: 0 <= k < idx ==> r[k] == plan[k]
    requires r[idx] == plan[idx].(loadU := plan[idx].loadU + a, truckUQ := plan[idx].truckUQ + a)
    requires forall k :: idx < k < |r| ==> r[k] == plan[k].(truckUQ := plan[k].truckUQ + a)
    ensures Tally(r, LoadedUAt(s)) == Tally(plan, LoadedUAt(s)) + (if plan[idx].station == s then a else 0)
  {
    TallyDiff(plan, r, LoadedUAt(s), idx, idx);
  }

  lemma SourcesKept(p: Params, l: seq<UnsatRecord>, a: seq<TruckEntry>, b: seq<TruckEntry>)
    requires SourcesOk(p, l, a) && SameStops(a, b)
    ensures SourcesOk(p, l, b)
  {
  }

  /**
   * Stock after usable bikes were taken back from earlier stations of the
   * schedule to be unloaded at `cur`: no station other than `cur` gained
   * bikes, only stations of the schedule changed, and `cur` gained at most
   * `extra`.
   */
  predicate Drained(u0: seq<int>, u: seq<int>, cur: int, extra: int, stations: seq<int>) {
    |u| == |u0| && 0 <= cur < |u| && u[cur] <= u0[cur] + extra &&
    forall s :: 0 <= s < |u| && s != cur ==> u[s] <= u0[s] && (u[s] != u0[s] ==> s in stations)
  }

  /** The usable priority order of the backfill: highest priority first. */
  function NegPriority(x: UnsatRecord): real { -x.priority }

  /**
   * One round of the backfill loop of unloadUsable (Utils.cpp:268-298): the
   * stop that left the most urgent usable surplus loads up to `need` more,
   * bounded by the truck's smallest room from there on, its surplus and the
   * time of the station being served; the truck carries them to `cur`.
   */
  method BackfillStep(p: Params, inst: Instance, cur: int, need: int, minRoom: int, g: Greedy)
    returns (added: int, r: Greedy)
    requires ValidParams(p) && Shaped(p, g) && 1 <= cur <= p.nbClients
    requires |g.ldU| > 0 && SourcesOk(p, g.ldU, g.plan) && ListOk(p, g.uldU) && PlanOk(g.plan, p.vehicleCapacity)
    requires need > 0 && minRoom > 0 && g.maxOp[cur] >= LoadTime(p, 1)
    requires 0 <= g.ldU[0].idx < |g.plan| && forall k :: g.ldU[0].idx <= k < |g.plan| ==> minRoom <= Room(g.plan, k, p.vehicleCapacity)
    ensures 1 <= added <= need
    ensures SameStops(g.plan, r.plan) && PlanOk(r.plan, p.vehicleCapacity)
    ensures r.plan[|r.plan| - 1].truckUQ == g.plan[|g.plan| - 1].truckUQ + added
    ensures Drained(g.usable, r.usable, cur, added, StationsOf(g.plan)) && Shifted(g, r, cur, added)
    ensures |r.maxOp| == |g.maxOp| && r.maxOp == g.maxOp[cur := r.maxOp[cur]] && 0.0 <= r.maxOp[cur] <= g.maxOp[cur]
    ensures SourcesOk(p, r.ldU, r.plan) && ListOk(p, r.uldU)
    ensures BackfillFrame(g, r)
  {
    var x := g.ldU[0];
    assert x in g.ldU;
    var cap := p.vehicleCapacity;
    var noTime := Min(Min(need, minRoom), x.surplus);
    OneLoadFits(p.loadingTime, g.maxOp[cur]);
    var byTime := MaxLoadQByTime(p.loadingTime, g.maxOp[cur]);
    added := Min(noTime, byTime);
    LoadTimeFits(p.loadingTime, g.maxOp[cur], added);
    var moved := MoveFromSource(p, x.idx, added, cur, g);
    var plan := moved.plan;
    var drawn := g.usable[x.station := g.usable[x.station] - added];
    var uldU := OverwriteShortfall(p, g.uldU, cur, |g.plan|, noTime - added, Prio(inst, drawn, g.broken, cur));
    var left := x.surplus - added;
    var ldU := if left == 0 then g.ldU[1..] else g.ldU[0 := x.(surplus := left)];
    SourcesKept(p, g.ldU, g.plan, plan);
    forall y | y in ldU ensures SourceOk(p, y, plan) {
      if left != 0 && y == x.(surplus := left) {
      } else {
        var j :| 0 <= j < |ldU| && ldU[j] == y;
        assert y == g.ldU[if left == 0 then j + 1 else j];
        assert y in g.ldU;
      }
    }
    r := moved.(maxOp := g.maxOp[cur := g.maxOp[cur] - LoadTime(p, added)], ldU := ldU, uldU := uldU);
  }

  /**
   * The bikes of one backfill round (Utils.cpp:279-289): entry idx loads `a`
   * more usable bikes, its station loses them, the truck carries them to
   * the end of the schedule and `cur` gets them.
   */
  method MoveFromSource(p: Params, idx: int, a: int, cur: int, g: Greedy) returns (r: Greedy)
    requires PlanOk(g.plan, p.vehicleCapacity) && 0 <= idx < |g.plan| && g.plan[idx].unloadU == 0 && 0 <= a
    requires forall k :: idx <= k < |g.plan| ==> a <= Room(g.plan, k, p.vehicleCapacity)
    requires 1 <= g.plan[idx].station < |g.usable| && 1 <= cur < |g.usable|
    ensures r == g.(usable := r.usable, plan := r.plan)
    ensures SameStops(g.plan, r.plan) && PlanOk(r.plan, p.vehicleCapacity)
    ensures r.plan[|r.plan| - 1].truckUQ == g.plan[|g.plan| - 1].truckUQ + a
    ensures Drained(g.usable, r.usable, cur, a, StationsOf(g.plan)) && Shifted(g, r, cur, a)
  {
    var st := g.plan[idx].station;
    var plan := RaiseFrom(g.plan, idx, a);
    RaiseKeepsPlan(g.plan, idx, a, plan, p.vehicleCapacity);
    var usable := g.usable[st := g.usable[st] - a];
    r := g.(usable := usable[cur := usable[cur] + a], plan := plan);
    RaiseShifted(g, r, idx, a, cur);
    assert StationsOf(g.plan)[idx] == st;
  }

  lemma SameStopsTrans(a: seq<TruckEntry>, b: seq<TruckEntry>, c: seq<TruckEntry>)
    requires SameStops(a, b) && SameStops(b, c)
    ensures SameStops(a, c) && StationsOf(a) == StationsOf(c) && StationsOf(a) == StationsOf(b)
  {
  }

  lemma DrainedTrans(u0: seq<int>, u1: seq<int>, u2: seq<int>, cur: int, e1: int, e2: int, stations: seq<int>)
    requires Drained(u0, u1, cur, e1, stations) && Drained(u1, u2, cur, e2, stations)
    ensures Drained(u0, u2, cur, e1 + e2, stations)
  {
  }

  /** The backfill changes the stock, the times, the schedule and two of the lists, and nothing else. */
  predicate BackfillFrame(g: Greedy, r: Greedy) {
    && r.broken == g.broken && r.truckUsable == g.truckUsable && r.truckBroken == g.truckBroken
    && r.prevDepot == g.prevDepot && r.ldB == g.ldB && r.uldExtra == g.uldExtra
  }

  lemma DrainedMore(u0: seq<int>, u: seq<int>, cur: int, e: int, ep: int, stations: seq<int>)
    requires Drained(u0, u, cur, e, stations)
    ensures Drained(u0, u[cur := u[cur] + ep], cur, e + ep, stations)
  {
  }

  /**
   * The backfill of unloadUsable (Utils.cpp:260-308), entered when the truck
   * arrives with `unload0` usable bikes, fewer than the `sd` the station
   * should get, and unloads them all. Earlier stops that left usable
   * surplus load more, most urgent first, until the demand is met, no such
   * stop is left, the truck has no room after one of them or the station's
   * time runs out; then the last depot stop makes up what it can.
   */
  method Backfill(p: Params, inst: Instance, cur: int, sd: int, unload0: int, g: Greedy) returns (unload: int, r: Greedy)
    requires ValidParams(p) && Shaped(p, g) && 1 <= cur <= p.nbClients
    requires PlanOk(g.plan, p.vehicleCapacity) && |g.plan| >= 1
    requires 0 <= g.prevDepot < |g.plan| && g.plan[g.prevDepot].station == 0
    requires g.plan[|g.plan| - 1].truckUQ == unload0 && 0 <= unload0 < sd
    requires g.maxOp[cur] >= 0.0
    requires SourcesOk(p, g.ldU, g.plan) && ListOk(p, g.uldU)
    ensures unload0 <= unload <= sd && Backfilled(p, cur, g, unload0, r, unload)
  {
    var sorted := g.(ldU := SortBy(g.ldU, NegPriority));
    assert Backfilled(p, cur, g, unload0, sorted, unload0) by {
      forall y | y in sorted.ldU ensures SourceOk(p, y, sorted.plan) {
        assert y in multiset(sorted.ldU);
      }
    }
    var next;
    unload, next := BackfillLoop(p, inst, cur, sd, unload0, sorted);
    BackfilledTrans(p, cur, g, unload0, sorted, unload0, next, unload);
    r := next;
    if unload != sd {
      var topped, last := TopUpAtDepot(p, inst, cur, sd, unload, next);
      BackfilledTrans(p, cur, g, unload0, next, unload, last, topped);
      unload, r := topped, last;
    }
  }

  /** What is still missing once the backfill stops is loaded at the last depot visit (Utils.cpp:300-308). */
  method TopUpAtDepot(p: Params, inst: Instance, cur: int, sd: int, unload0: int, g: Greedy) returns (unload: int, r: Greedy)
    requires ValidParams(p) && Shaped(p, g) && 1 <= cur <= p.nbClients
    requires PlanOk(g.plan, p.vehicleCapacity) && 0 <= g.prevDepot < |g.plan| && g.plan[g.prevDepot].station == 0
    requires g.plan[|g.plan| - 1].truckUQ == unload0 && unload0 < sd
    requires g.maxOp[cur] >= 0.0
    requires SourcesOk(p, g.ldU, g.plan) && ListOk(p, g.uldU)
    ensures unload0 <= unload <= sd && Backfilled(p, cur, g, unload0, r, unload)
  {
    var ep, last := AdjustDepotLoading(p, sd - unload0, cur, Prio(inst, g.usable, g.broken, cur), g);
    ghost var n := |g.plan| - 1;
    if n > g.prevDepot {
      assert last.plan[n] == g.plan[n].(truckUQ := g.plan[n].truckUQ + ep);
    }
    SourcesKept(p, last.ldU, g.plan, last.plan);
    unload, r := unload0 + ep, last.(usable := last.usable[cur := last.usable[cur] + ep]);
    forall s | 1 <= s < |g.usable|
      ensures Tally(r.plan, LoadedUAt(s)) == Tally(g.plan, LoadedUAt(s))
    {
      TallyDiff(g.plan, r.plan, LoadedUAt(s), g.prevDepot, g.prevDepot);
    }
  }

  /**
   * What the backfill promises, from state g with unload0 bikes on board to
   * state r with unload: the stops are kept and the plan stays within
   * capacity, the truck arrives with `unload`, the extra bikes come from
   * earlier stops of the plan, only `cur`'s time shrinks, and the unsatisfied
   * lists stay well-formed.
   */
  ghost predicate Backfilled(p: Params, cur: int, g: Greedy, unload0: int, r: Greedy, unload: int) {
    && SameStops(g.plan, r.plan) && PlanOk(r.plan, p.vehicleCapacity) && |r.plan| > 0
    && r.plan[|r.plan| - 1].truckUQ == unload
    && Drained(g.usable, r.usable, cur, unload - unload0, StationsOf(g.plan)) && Shifted(g, r, cur, unload - unload0)
    && |r.maxOp| == |g.maxOp| && 0 <= cur < |g.maxOp| && r.maxOp == g.maxOp[cur := r.maxOp[cur]] && 0.0 <= r.maxOp[cur] <= g.maxOp[cur]
    && SourcesOk(p, r.ldU, r.plan) && ListOk(p, r.uldU)
    && BackfillFrame(g, r)
  }

  lemma BackfilledTrans(p: Params, cur: int, g: Greedy, u0: int, m: Greedy, u1: int, r: Greedy, u2: int)
    requires Backfilled(p, cur, g, u0, m, u1) && Backfilled(p, cur, m, u1, r, u2)
    ensures Backfilled(p, cur, g, u0, r, u2)
  {
    SameStopsTrans(g.plan, m.plan, r.plan);
    DrainedTrans(g.usable, m.usable, r.usable, cur, u1 - u0, u2 - u1, StationsOf(g.plan));
    ShiftedTrans(g, m, r, cur, u1 - u0, u2 - u1);
  }

  /** The loop of the backfill (Utils.cpp:268-298). */
  method BackfillLoop(p: Params, inst: Instance, cur: int, sd: int, unload0: int, g: Greedy) returns (unload: int, r: Greedy)
    requires ValidParams(p) && Shaped(p, g) && 1 <= cur <= p.nbClients
    requires PlanOk(g.plan, p.vehicleCapacity) && |g.plan| >= 1
    requires g.plan[|g.plan| - 1].truckUQ == unload0 && 0 <= unload0 < sd
    requires g.maxOp[cur] >= 0.0
    requires SourcesOk(p, g.ldU, g.plan) && ListOk(p, g.uldU)
    ensures unload0 <= unload <= sd && Backfilled(p, cur, g, unload0, r, unload)
  {
    var cap := p.vehicleCapacity;
    r := g;
    unload := unload0;
    while unload != sd && |r.ldU| > 0 && r.maxOp[cur] >= LoadTime(p, 1)
      invariant unload0 <= unload <= sd
      invariant SameStops(g.plan, r.plan) && PlanOk(r.plan, cap)
      invariant r.plan[|r.plan| - 1].truckUQ == unload
      invariant Drained(g.usable, r.usable, cur, unload - unload0, StationsOf(g.plan))
      invariant Shifted(g, r, cur, unload - unload0)
      invariant |r.maxOp| == |g.maxOp| && r.maxOp == g.maxOp[cur := r.maxOp[cur]] && 0.0 <= r.maxOp[cur] <= g.maxOp[cur]
      invariant SourcesOk(p, r.ldU, r.plan) && ListOk(p, r.uldU)
      invariant BackfillFrame(g, r)
      decreases sd - unload
    {
      var x := r.ldU[0];
      assert x in r.ldU;
      var minRoom := MinRoomFrom(r.plan, x.idx, cap);
      var at :| x.idx <= at < |r.plan| && minRoom == Room(r.plan, at, cap);
      assert EntryOk(r.plan, at, cap);
      if minRoom == 0 {
        break;
      }
      var added, next := BackfillStep(p, inst, cur, sd - unload, minRoom, r);
      SameStopsTrans(g.plan, r.plan, next.plan);
      DrainedTrans(g.usable, r.usable, next.usable, cur, unload - unload0, added, StationsOf(g.plan));
      ShiftedTrans(g, r, next, cur, unload - unload0, added);
      unload, r := unload + added, next;
    }
  }

  /**
   * unloadUsable (Utils.cpp:248-312): the station gets usable bikes up to
   * its target and its free room `residual`, as many as the truck carries;
   * the time of the unloading is booked for the station. When the truck
   * runs empty before the demand is met, the backfill loads more at earlier
   * stops. Either the station gets all it needs or the truck leaves empty.
   */
  method UnloadUsable(p: Params, inst: Instance, cur: int, residual: int, g: Greedy) returns (unload: int, r: Greedy)
    requires ValidParams(p) && Shaped(p, g) && |inst.networkInfo| == p.nbClients + 1 && 1 <= cur <= p.nbClients
    requires g.usable[cur] <= Target(inst, cur) && residual >= 0 && g.maxOp[cur] >= 0.0
    requires PlanOk(g.plan, p.vehicleCapacity) && |g.plan| >= 1
    requires 0 <= g.prevDepot < |g.plan| && g.plan[g.prevDepot].station == 0
    requires g.truckUsable == g.plan[|g.plan| - 1].truckUQ
    requires SourcesOk(p, g.ldU, g.plan) && ListOk(p, g.uldU) && ExtraOk(p, g.uldExtra)
    ensures 0 <= unload <= Min(Target(inst, cur) - g.usable[cur], residual)
    ensures SameStops(g.plan, r.plan) && PlanOk(r.plan, p.vehicleCapacity)
    ensures r.truckUsable == r.plan[|r.plan| - 1].truckUQ - unload && 0 <= r.truckUsable <= g.truckUsable
    ensures unload == Min(Target(inst, cur) - g.usable[cur], residual) || r.truckUsable == 0
    ensures Drained(g.usable, r.usable, cur, unload, StationsOf(g.plan)) && Shifted(g, r, cur, unload)
    ensures |r.maxOp| == |g.maxOp| && r.maxOp == g.maxOp[cur := r.maxOp[cur]] && 0.0 <= r.maxOp[cur] <= g.maxOp[cur]
    ensures SourcesOk(p, r.ldU, r.plan) && ListOk(p, r.uldU) && ExtraOk(p, r.uldExtra)
    ensures r.broken == g.broken && r.truckBroken == g.truckBroken && r.prevDepot == g.prevDepot && r.ldB == g.ldB
  {
    var sd := Min(Target(inst, cur) - g.usable[cur], residual);
    unload := Min(sd, g.truckUsable);
    assert EntryOk(g.plan, |g.plan| - 1, p.vehicleCapacity);
    assert 2 * unload * p.loadingTime >= 0;
    var extra := AddExtra(p, g.uldExtra, cur, LoadTime(p, unload));
    r := g.(usable := g.usable[cur := g.usable[cur] + unload], uldExtra := extra);
    ShiftedUnload(g, r, cur, unload);
    if unload == g.truckUsable && unload != sd && g.maxOp[cur] >= LoadTime(p, 1) {
      var unload0, r0 := unload, r;
      unload, r := Backfill(p, inst, cur, sd, unload, r);
      DrainedTrans(g.usable, r0.usable, r.usable, cur, unload0, unload - unload0, StationsOf(g.plan));
      ShiftedTrans(g, r0, r, cur, unload0, unload - unload0);
    }
    r := r.(truckUsable := r.plan[|r.plan| - 1].truckUQ - unload);
  }

  /**
   * assignUnloadingQuantities (Utils.cpp:207-230): at a station at or below
   * its target, broken bikes are loaded first when the station lacks room
   * for the usable bikes it needs, then usable bikes are unloaded, then
   * broken bikes are loaded with the time that is left.
   */
  method AssignUnloadingQuantities(p: Params, inst: Instance, cur: int, g: Greedy)
    returns (unload: int, brokenLoad: int, r: Greedy)
    requires ValidParams(p) && Shaped(p, g) && |inst.networkInfo| == p.nbClients + 1 && 1 <= cur <= p.nbClients
    requires StockOk(p, inst, g.usable, g.broken) && g.usable[cur] <= Target(inst, cur) && g.maxOp[cur] >= 0.0
    requires PlanOk(g.plan, p.vehicleCapacity) && |g.plan| >= 1
    requires 0 <= g.prevDepot < |g.plan| && g.plan[g.prevDepot].station == 0
    requires g.truckUsable == g.plan[|g.plan| - 1].truckUQ && g.truckBroken == g.plan[|g.plan| - 1].truckBQ
    requires SourcesOk(p, g.ldU, g.plan) && ListOk(p, g.ldB) && ListOk(p, g.uldU) && ExtraOk(p, g.uldExtra)
    ensures 0 <= unload && 0 <= brokenLoad <= g.broken[cur]
    ensures SameStops(g.plan, r.plan) && PlanOk(r.plan, p.vehicleCapacity) && r.prevDepot == g.prevDepot
    ensures r.truckUsable == r.plan[|r.plan| - 1].truckUQ - unload
    ensures r.truckBroken == r.plan[|r.plan| - 1].truckBQ + brokenLoad
    ensures TruckLoadOk(p, r)
    ensures Shaped(p, r) && r.broken == g.broken[cur := g.broken[cur] - brokenLoad]
    ensures Drained(g.usable, r.usable, cur, unload, StationsOf(g.plan)) && Shifted(g, r, cur, unload)
    ensures StockOk(p, inst, r.usable, r.broken) && r.usable[cur] <= Target(inst, cur)
    ensures r.maxOp == g.maxOp[cur := r.maxOp[cur]] && 0.0 <= r.maxOp[cur] <= g.maxOp[cur]
    ensures SourcesOk(p, r.ldU, r.plan) && ListOk(p, r.ldB) && ListOk(p, r.uldU) && ExtraOk(p, r.uldExtra)
  {
    var g1;
    unload, brokenLoad, g1 := MakeRoomAndUnload(p, inst, cur, g);
    r := g1;
    if g1.maxOp[cur] >= LoadTime(p, 1) {
      var more;
      more, r := SuppLoadBroken(p, inst, cur, g1);
      brokenLoad := brokenLoad + more;
    }
  }

  /** The first two steps of assignUnloadingQuantities (Utils.cpp:211-222). */
  method MakeRoomAndUnload(p: Params, inst: Instance, cur: int, g: Greedy)
    returns (unload: int, brokenLoad: int, r: Greedy)
    requires ValidParams(p) && Shaped(p, g) && |inst.networkInfo| == p.nbClients + 1 && 1 <= cur <= p.nbClients
    requires StockOk(p, inst, g.usable, g.broken) && g.usable[cur] <= Target(inst, cur) && g.maxOp[cur] >= 0.0
    requires PlanOk(g.plan, p.vehicleCapacity) && |g.plan| >= 1
    requires 0 <= g.prevDepot < |g.plan| && g.plan[g.prevDepot].station == 0
    requires g.truckUsable == g.plan[|g.plan| - 1].truckUQ && g.truckBroken == g.plan[|g.plan| - 1].truckBQ
    requires SourcesOk(p, g.ldU, g.plan) && ListOk(p, g.ldB) && ListOk(p, g.uldU) && ExtraOk(p, g.uldExtra)
    ensures 0 <= unload && 0 <= brokenLoad <= g.broken[cur]
    ensures SameStops(g.plan, r.plan) && PlanOk(r.plan, p.vehicleCapacity) && r.prevDepot == g.prevDepot
    ensures r.truckUsable == r.plan[|r.plan| - 1].truckUQ - unload
    ensures r.truckBroken == r.plan[|r.plan| - 1].truckBQ + brokenLoad
    ensures TruckLoadOk(p, r)
    ensures Shaped(p, r) && r.broken == g.broken[cur := g.broken[cur] - brokenLoad]
    ensures Drained(g.usable, r.usable, cur, unload, StationsOf(g.plan)) && Shifted(g, r, cur, unload)
    ensures StockOk(p, inst, r.usable, r.broken) && r.usable[cur] <= Target(inst, cur)
    ensures r.maxOp == g.maxOp[cur := r.maxOp[cur]] && 0.0 <= r.maxOp[cur] <= g.maxOp[cur]
    ensures SourcesOk(p, r.ldU, r.plan) && ListOk(p, r.ldB) && ListOk(p, r.uldU) && ExtraOk(p, r.uldExtra)
  {
    assert EntryOk(g.plan, |g.plan| - 1, p.vehicleCapacity);
    var g1 := g;
    brokenLoad := 0;
    var residual := Capacity(inst, cur) - g.usable[cur] - g.broken[cur];
    if residual < Target(inst, cur) - g.usable[cur] {
      brokenLoad, g1 := LoadBroken(p, inst, cur, g);
      residual := Capacity(inst, cur) - g1.usable[cur] - g1.broken[cur];
    }
    unload, r := UnloadUsable(p, inst, cur, residual, g1);
    StockKept(p, inst, g.usable, g.broken, r.usable, r.broken, cur, unload, StationsOf(g.plan));
  }

  /** Draining other stations and filling `cur` within its capacity keeps the stock sound. */
  lemma StockKept(p: Params, inst: Instance, u0: seq<int>, b0: seq<int>, u: seq<int>, b: seq<int>,
                  cur: int, extra: int, stations: seq<int>)
    requires |inst.networkInfo| == p.nbClients + 1 && |u0| == p.nbClients + 1 && |b0| == p.nbClients + 1
    requires StockOk(p, inst, u0, b0) && 1 <= cur <= p.nbClients
    requires Drained(u0, u, cur, extra, stations)
    requires |b| == |b0| && b == b0[cur := b[cur]]
    requires 0 <= b[cur] && u[cur] + b[cur] <= Capacity(inst, cur)
    ensures StockOk(p, inst, u, b)
  {
  }

  /**
   * Every station's stock is its stock in g0 less the usable and broken
   * bikes the schedule loads there, plus the usable bikes it unloads there.
   */
  ghost predicate Ledger(p: Params, g0: Greedy, r: Greedy)
    requires Shaped(p, g0) && Shaped(p, r)
  {
    forall s :: 1 <= s <= p.nbClients ==>
      && r.usable[s] == g0.usable[s] - Tally(r.plan, LoadedUAt(s)) + Tally(r.plan, UnloadedUAt(s))
      && r.broken[s] == g0.broken[s] - Tally(r.plan, LoadedBAt(s))
  }

  /**
   * A stop whose entry e is appended after the schedule's earlier entries
   * kept their stops, with the usable stock shifted by what e unloads and
   * the broken stock down by what e loads, keeps the ledger.
   */
  lemma LedgerStep(p: Params, g0: Greedy, g: Greedy, r: Greedy, e: TruckEntry)
    requires Shaped(p, g0) && Shaped(p, g) && Shaped(p, r) && Ledger(p, g0, g)
    requires |r.plan| == |g.plan| + 1 && r.plan[|g.plan|] == e && SameStops(g.plan, r.plan[..|g.plan|])
    requires Shifted(g, r, e.station, e.unloadU)
    requires forall s :: 1 <= s <= p.nbClients ==> r.broken[s] == g.broken[s] - (if s == e.station then e.loadB else 0)
    ensures Ledger(p, g0, r)
  {
    var n := |g.plan|;
    assert r.plan[..n] + [e] == r.plan;
    forall s | 1 <= s <= p.nbClients
      ensures r.usable[s] == g0.usable[s] - Tally(r.plan, LoadedUAt(s)) + Tally(r.plan, UnloadedUAt(s))
      ensures r.broken[s] == g0.broken[s] - Tally(r.plan, LoadedBAt(s))
    {
      SameStopsTallies(g.plan, r.plan[..n], s);
      assert Tally(r.plan, UnloadedUAt(s)) == Tally(r.plan[..n], UnloadedUAt(s)) + UnloadedUAt(s)(e);
      assert Tally(r.plan, LoadedBAt(s)) == Tally(r.plan[..n], LoadedBAt(s)) + LoadedBAt(s)(e);
    }
  }

  /**
   * The state after the greedy pass has handled route[..i], started from
   * g0: the schedule has one sound entry per station handled, the truck
   * carries what the last entry says, the stock stays sound, times only
   * shrink and stay non-negative on the route, broken stock only shrinks,
   * stations not handled yet are untouched, the lists are well-formed, and
   * the stock has changed by exactly what the schedule loads and unloads.
   */
  ghost predicate GreedyInv(p: Params, inst: Instance, route: seq<int>, g0: Greedy, i: int, r: Greedy)
    requires |inst.networkInfo| == p.nbClients + 1 && Shaped(p, g0)
  {
    && 0 <= i <= |route| && Shaped(p, r) && |r.plan| == i && StationsOf(r.plan) == route[..i]
    && PlanOk(r.plan, p.vehicleCapacity)
    && (i == 0 ==> r.truckUsable == 0 && r.truckBroken == 0)
    && (i >= 1 ==> r.truckUsable == r.plan[i - 1].truckUQ && r.truckBroken == r.plan[i - 1].truckBQ &&
                   0 <= r.prevDepot < i && r.plan[r.prevDepot].station == 0)
    && StockOk(p, inst, r.usable, r.broken)
    && (forall k :: 0 <= k < |route| && 1 <= route[k] <= p.nbClients ==> r.maxOp[route[k]] >= 0.0)
    && (forall s :: 0 <= s <= p.nbClients ==> r.maxOp[s] <= g0.maxOp[s] && r.broken[s] <= g0.broken[s])
    && (forall s :: 0 <= s <= p.nbClients && s !in route[..i] ==>
          r.usable[s] == g0.usable[s] && r.broken[s] == g0.broken[s] && r.maxOp[s] == g0.maxOp[s])
    && SourcesOk(p, r.ldU, r.plan) && ListOk(p, r.ldB) && ListOk(p, r.uldU) && ExtraOk(p, r.uldExtra)
    && Ledger(p, g0, r)
  }

  /** Appending a sound entry to a sound schedule. */
  lemma PlanAppend(plan: seq<TruckEntry>, e: TruckEntry, cap: int)
    requires PlanOk(plan, cap) && EntryOk(plan + [e], |plan|, cap)
    ensures PlanOk(plan + [e], cap)
  {
    forall k | 0 <= k < |plan| ensures EntryOk(plan + [e], k, cap) {
      assert EntryOk(plan, k, cap);
      assert (plan + [e])[k] == plan[k];
      if k > 0 {
        assert (plan + [e])[k - 1] == plan[k - 1];
      }
    }
  }

  /** Appending an entry keeps every record pointing at the same stop. */
  lemma SourcesAppend(p: Params, l: seq<UnsatRecord>, plan: seq<TruckEntry>, e: TruckEntry)
    requires SourcesOk(p, l, plan)
    ensures SourcesOk(p, l, plan + [e])
  {
    forall x | x in l ensures SourceOk(p, x, plan + [e]) {
      assert SourceOk(p, x, plan);
      assert (plan + [e])[x.idx] == plan[x.idx];
    }
  }

  /** The stations of a schedule grown by one entry. */
  lemma StationsAppend(plan: seq<TruckEntry>, e: TruckEntry, route: seq<int>, i: int)
    requires 0 <= i < |route| && StationsOf(plan) == route[..i] && e.station == route[i]
    ensures StationsOf(plan + [e]) == route[..i + 1]
  {
    assert route[..i + 1] == route[..i] + [route[i]];
  }

  /** A depot stop (Utils.cpp:491-502): the truck drops everything it carries. */
  method DepotStop(p: Params, inst: Instance, route: seq<int>, g0: Greedy, i: int, g: Greedy) returns (r: Greedy)
    requires ValidParams(p) && |inst.networkInfo| == p.nbClients + 1 && Shaped(p, g0)
    requires 0 <= i < |route| && route[i] == 0 && GreedyInv(p, inst, route, g0, i, g)
    ensures GreedyInv(p, inst, route, g0, i + 1, r)
    ensures r.plan == g.plan + [TruckEntry(0, 0.0, 0, 0, g.truckUsable, g.truckBroken, 0, 0)]
  {
    var e := TruckEntry(0, 0.0, 0, 0, g.truckUsable, g.truckBroken, 0, 0);
    assert EntryOk(g.plan + [e], i, p.vehicleCapacity) by {
      if i > 0 {
        assert EntryOk(g.plan, i - 1, p.vehicleCapacity);
      }
    }
    PlanAppend(g.plan, e, p.vehicleCapacity);
    SourcesAppend(p, g.ldU, g.plan, e);
    StationsAppend(g.plan, e, route, i);
    r := g.(plan := g.plan + [e], prevDepot := i, truckUsable := 0, truckBroken := 0);
    assert route[..i] <= route[..i + 1];
    assert r.plan[..i] == g.plan;
    LedgerStep(p, g0, g, r, e);
  }

  /** A station at or below its target (Utils.cpp:479-485): unloading, recorded as a new entry. */
  method UnloadStop(p: Params, inst: Instance, route: seq<int>, g0: Greedy, i: int, g: Greedy) returns (r: Greedy)
    requires ValidParams(p) && |inst.networkInfo| == p.nbClients + 1 && Shaped(p, g0)
    requires 1 <= i < |route| && 1 <= route[i] <= p.nbClients && GreedyInv(p, inst, route, g0, i, g)
    requires g.usable[route[i]] <= Target(inst, route[i])
    ensures GreedyInv(p, inst, route, g0, i + 1, r)
    ensures var e := r.plan[i]; e.loadU == 0 && e.unloadB == 0
    ensures r.usable[route[i]] <= Target(inst, route[i])
  {
    var cur := route[i];
    assert cur in route[..i + 1];
    var unload, brokenLoad, r1 := AssignUnloadingQuantities(p, inst, cur, g);
    var e := TruckEntry(cur, 0.0, 0, brokenLoad, unload, 0, r1.truckUsable, r1.truckBroken);
    assert EntryOk(r1.plan + [e], i, p.vehicleCapacity);
    PlanAppend(r1.plan, e, p.vehicleCapacity);
    SourcesAppend(p, r1.ldU, r1.plan, e);
    SameStopsTrans(g.plan, r1.plan, r1.plan);
    StationsAppend(r1.plan, e, route, i);
    r := r1.(plan := r1.plan + [e]);
    assert (r1.plan + [e])[r.prevDepot] == r1.plan[r.prevDepot];
    assert route[..i] <= route[..i + 1];
    assert r.plan[..i] == r1.plan;
    LedgerStep(p, g0, g, r, e);
  }

  /** Once the entry of the current station is appended, its pending records point at it. */
  lemma PendingSettled(p: Params, l: seq<UnsatRecord>, plan: seq<TruckEntry>, e: TruckEntry)
    requires forall x :: x in l ==> PendingOk(p, x, plan, e.station)
    requires e.unloadU == 0
    ensures SourcesOk(p, l, plan + [e])
  {
    forall x | x in l ensures SourceOk(p, x, plan + [e]) {
      assert PendingOk(p, x, plan, e.station);
      assert (plan + [e])[x.idx] == if x.idx < |plan| then plan[x.idx] else e;
    }
  }

  /** Loading at a station above its target and appending its entry (Utils.cpp:486-490, 500-502). */
  method LoadEntry(p: Params, inst: Instance, cur: int, g: Greedy) returns (e: TruckEntry, r: Greedy)
    requires ValidParams(p) && Shaped(p, g) && |inst.networkInfo| == p.nbClients + 1 && 1 <= cur <= p.nbClients
    requires g.maxOp[cur] >= 0.0 && StockOk(p, inst, g.usable, g.broken) && g.usable[cur] > Target(inst, cur)
    requires PlanOk(g.plan, p.vehicleCapacity) && |g.plan| >= 1
    requires g.truckUsable == g.plan[|g.plan| - 1].truckUQ && g.truckBroken == g.plan[|g.plan| - 1].truckBQ
    requires SourcesOk(p, g.ldU, g.plan) && ListOk(p, g.ldB)
    ensures Shaped(p, r) && r.plan == g.plan + [e] && PlanOk(r.plan, p.vehicleCapacity)
    ensures e.station == cur && e.unloadU == 0 && e.loadU == g.usable[cur] - r.usable[cur]
    ensures e.loadB == g.broken[cur] - r.broken[cur]
    ensures r.truckUsable == e.truckUQ && r.truckBroken == e.truckBQ
    ensures r.usable == g.usable[cur := r.usable[cur]] && Target(inst, cur) <= r.usable[cur] <= g.usable[cur]
    ensures r.broken == g.broken[cur := r.broken[cur]] && 0 <= r.broken[cur] <= g.broken[cur]
    ensures r.maxOp == g.maxOp[cur := r.maxOp[cur]] && 0.0 <= r.maxOp[cur] <= g.maxOp[cur]
    ensures r.prevDepot == g.prevDepot && r.uldU == g.uldU && r.uldExtra == g.uldExtra
    ensures SourcesOk(p, r.ldU, r.plan) && ListOk(p, r.ldB)
  {
    assert EntryOk(g.plan, |g.plan| - 1, p.vehicleCapacity);
    var usableLoad, brokenLoad, r1 := AssignLoadingQuantities(p, inst, cur, g);
    e := TruckEntry(cur, 0.0, usableLoad, brokenLoad, 0, 0, r1.truckUsable, r1.truckBroken);
    assert EntryOk(g.plan + [e], |g.plan|, p.vehicleCapacity);
    PlanAppend(g.plan, e, p.vehicleCapacity);
    PendingSettled(p, r1.ldU, g.plan, e);
    r := r1.(plan := g.plan + [e]);
  }

  /** A station above its target (Utils.cpp:486-490): loading, recorded as a new entry. */
  method LoadStop(p: Params, inst: Instance, route: seq<int>, g0: Greedy, i: int, g: Greedy) returns (r: Greedy)
    requires ValidParams(p) && |inst.networkInfo| == p.nbClients + 1 && Shaped(p, g0)
    requires 1 <= i < |route| && 1 <= route[i] <= p.nbClients && GreedyInv(p, inst, route, g0, i, g)
    requires g.usable[route[i]] > Target(inst, route[i])
    ensures GreedyInv(p, inst, route, g0, i + 1, r)
    ensures r.plan[i].unloadU == 0 && r.plan[i].loadU == g.usable[route[i]] - r.usable[route[i]]
    ensures r.usable[route[i]] >= Target(inst, route[i])
  {
    var cur := route[i];
    assert cur in route[..i + 1];
    var e;
    e, r := LoadEntry(p, inst, cur, g);
    StationsAppend(g.plan, e, route, i);
    assert r.plan[r.prevDepot] == g.plan[r.prevDepot];
    assert route[..i] <= route[..i + 1];
    assert r.plan[..i] == g.plan;
    LedgerStep(p, g0, g, r, e);
  }

  /** One stop of greedyAssignment (Utils.cpp:476-503): empty the truck at a depot, else unload or load by the target. */
  method GreedyStop(p: Params, inst: Instance, route: seq<int>, g0: Greedy, i: int, g: Greedy) returns (r: Greedy)
    requires ValidParams(p) && |inst.networkInfo| == p.nbClients + 1 && Shaped(p, g0)
    requires 0 <= i < |route| && route[0] == 0 && 0 <= route[i] <= p.nbClients
    requires GreedyInv(p, inst, route, g0, i, g)
    ensures GreedyInv(p, inst, route, g0, i + 1, r)
  {
    var cur := route[i];
    if cur == 0 {
      r := DepotStop(p, inst, route, g0, i, g);
    } else if g.usable[cur] <= Target(inst, cur) {
      r := UnloadStop(p, inst, route, g0, i, g);
    } else {
      r := LoadStop(p, inst, route, g0, i, g);
    }
  }

  /** Before the first stop: nothing scheduled, nothing moved. */
  lemma GreedyStart(p: Params, inst: Instance, route: seq<int>, g: Greedy)
    requires ValidParams(p) && |inst.networkInfo| == p.nbClients + 1 && Shaped(p, g)
    requires forall k :: 0 <= k < |route| ==> 0 <= route[k] <= p.nbClients
    requires |route| >= 1 && route[0] == 0
    requires g.plan == [] && g.truckUsable == 0 && g.truckBroken == 0 && g.ldU == []
    requires StockOk(p, inst, g.usable, g.broken)
    requires forall k :: 0 <= k < |route| && 1 <= route[k] <= p.nbClients ==> g.maxOp[route[k]] >= 0.0
    requires ListOk(p, g.ldB) && ListOk(p, g.uldU) && ExtraOk(p, g.uldExtra)
    ensures GreedyInv(p, inst, route, g, 0, g)
  {
    forall s | 1 <= s <= p.nbClients
      ensures g.usable[s] == g.usable[s] - Tally(g.plan, LoadedUAt(s)) + Tally(g.plan, UnloadedUAt(s))
      ensures g.broken[s] == g.broken[s] - Tally(g.plan, LoadedBAt(s))
    {
    }
  }

  /** After the last stop, the invariant gives what greedyAssignment promises. */
  lemma GreedyDone(p: Params, inst: Instance, route: seq<int>, g: Greedy, r: Greedy)
    requires |inst.networkInfo| == p.nbClients + 1 && Shaped(p, g) && |route| >= 1
    requires GreedyInv(p, inst, route, g, |route|, r)
    ensures Shaped(p, r) && StationsOf(r.plan) == route && PlanOk(r.plan, p.vehicleCapacity)
    ensures r.truckUsable == r.plan[|route| - 1].truckUQ && r.truckBroken == r.plan[|route| - 1].truckBQ
    ensures StockOk(p, inst, r.usable, r.broken)
    ensures forall s :: 0 <= s <= p.nbClients ==> r.maxOp[s] <= g.maxOp[s] && r.broken[s] <= g.broken[s]
    ensures forall k :: 0 <= k < |route| && 1 <= route[k] <= p.nbClients ==> r.maxOp[route[k]] >= 0.0
    ensures forall s :: 0 <= s <= p.nbClients && s !in route ==>
              r.usable[s] == g.usable[s] && r.broken[s] == g.broken[s] && r.maxOp[s] == g.maxOp[s]
    ensures forall s :: 1 <= s <= p.nbClients ==>
              r.usable[s] == g.usable[s] - Tally(r.plan, LoadedUAt(s)) + Tally(r.plan, UnloadedUAt(s))
    ensures forall s :: 1 <= s <= p.nbClients ==> r.broken[s] == g.broken[s] - Tally(r.plan, LoadedBAt(s))
    ensures SourcesOk(p, r.ldU, r.plan) && ListOk(p, r.ldB) && ListOk(p, r.uldU) && ExtraOk(p, r.uldExtra)
  {
    assert route[..|route|] == route;
  }

  /**
   * greedyAssignment (Utils.cpp:469-507): one pass over the route that
   * unloads at stations at or below their target, loads at stations above
   * it and empties the truck at every depot visit, appending one entry per
   * stop to the schedule.
   */
  method GreedyAssignment(p: Params, inst: Instance, route: seq<int>, g: Greedy) returns (r: Greedy)
    requires ValidParams(p) && |inst.networkInfo| == p.nbClients + 1 && Shaped(p, g)
    requires forall k :: 0 <= k < |route| ==> 0 <= route[k] <= p.nbClients
    requires |route| >= 1 && route[0] == 0
    requires g.plan == [] && g.truckUsable == 0 && g.truckBroken == 0 && g.ldU == []
    requires StockOk(p, inst, g.usable, g.broken)
    requires forall k :: 0 <= k < |route| && 1 <= route[k] <= p.nbClients ==> g.maxOp[route[k]] >= 0.0
    requires ListOk(p, g.ldB) && ListOk(p, g.uldU) && ExtraOk(p, g.uldExtra)
    ensures Shaped(p, r) && StationsOf(r.plan) == route && PlanOk(r.plan, p.vehicleCapacity)
    ensures r.truckUsable == r.plan[|route| - 1].truckUQ && r.truckBroken == r.plan[|route| - 1].truckBQ
    ensures StockOk(p, inst, r.usable, r.broken)
    ensures forall s :: 0 <= s <= p.nbClients ==> r.maxOp[s] <= g.maxOp[s] && r.broken[s] <= g.broken[s]
    ensures forall k :: 0 <= k < |route| && 1 <= route[k] <= p.nbClients ==> r.maxOp[route[k]] >= 0.0
    ensures forall s :: 0 <= s <= p.nbClients && s !in route ==>
              r.usable[s] == g.usable[s] && r.broken[s] == g.broken[s] && r.maxOp[s] == g.maxOp[s]
    ensures forall s :: 1 <= s <= p.nbClients ==>
              r.usable[s] == g.usable[s] - Tally(r.plan, LoadedUAt(s)) + Tally(r.plan, UnloadedUAt(s))
    ensures forall s :: 1 <= s <= p.nbClients ==> r.broken[s] == g.broken[s] - Tally(r.plan, LoadedBAt(s))
    ensures SourcesOk(p, r.ldU, r.plan) && ListOk(p, r.ldB) && ListOk(p, r.uldU) && ExtraOk(p, r.uldExtra)
  {
    GreedyStart(p, inst, route, g);
    r := GreedyStops(p, inst, route, g);
    GreedyDone(p, inst, route, g, r);
  }

  /** The loop of greedyAssignment (Utils.cpp:475-504): one stop after another, each keeping GreedyInv. */
  method GreedyStops(p: Params, inst: Instance, route: seq<int>, g: Greedy) returns (r: Greedy)
    requires ValidParams(p) && |inst.networkInfo| == p.nbClients + 1 && Shaped(p, g)
    requires forall k :: 0 <= k < |route| ==> 0 <= route[k] <= p.nbClients
    requires |route| >= 1 && route[0] == 0 && GreedyInv(p, inst, route, g, 0, g)
    ensures GreedyInv(p, inst, route, g, |route|, r)
  {
    r := g;
    var i := 0;
    while i < |route|
      // compared with true so that the invariant is checked as one fact, not conjunct by conjunct
      invariant GreedyInv(p, inst, route, g, i, r) == true
    {
      r := GreedyStop(p, inst, route, g, i, r);
      i := i + 1;
    }
  }
}
