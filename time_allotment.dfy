/*
 * The operating time of one vehicle's route (helpers/Utils.cpp: getMaxOpTime,
 * routeAdjustment). What the time budget leaves after travelling is shared
 * among the stations of the route in proportion to their priority, each
 * share capped at the time the station's whole task needs; the time the caps
 * free is handed to the stations still short of time, highest priority first.
 * When travelling alone leaves less than one operation's worth of time,
 * stations are dropped from the route, lowest priority first.
 */
module TimeAllotment {
  import opened Instances
  import opened Sorting
  import opened Routes

  /** Travel time along a route: the sum of the times of its legs. */
  function Travel(route: seq<int>, leg: (int, int) -> real): real {
    if |route| < 2 then 0.0
    else Travel(route[..|route| - 1], leg) + leg(route[|route| - 2], route[|route| - 1])
  }

  /** The time of a leg: its distance, times 1.68 for a repairman, who moves 1.68 times slower than a truck. */
  function LegTime(inst: Instance, isRPM: bool): (int, int) -> real {
    if isRPM then (a: int, b: int) => inst.dist(a, b) * 1.68 else (a: int, b: int) => inst.dist(a, b)
  }

  /** The travel of a route is the travel up to entry j plus the travel from entry j on. */
  lemma {:induction false} TravelSplit(route: seq<int>, leg: (int, int) -> real, j: int)
    requires 0 <= j < |route|
    ensures Travel(route, leg) == Travel(route[..j + 1], leg) + Travel(route[j..], leg)
  {
    if j < |route| - 1 {
      var front := route[..|route| - 1];
      TravelSplit(front, leg, j);
      assert front[..j + 1] == route[..j + 1];
      assert route[j..][..|route| - 1 - j] == front[j..];
    } else {
      assert route[..j + 1] == route;
    }
  }

  /** The first leg followed by the rest of the route. */
  lemma TravelFront(route: seq<int>, leg: (int, int) -> real)
    requires |route| >= 2
    ensures Travel(route, leg) == leg(route[0], route[1]) + Travel(route[1..], leg)
  {
    TravelSplit(route, leg, 1);
    assert route[..2][..1] == [route[0]];
  }

  /** Removing entry idx takes away the legs into and out of it and adds the direct leg between its neighbours. */
  lemma TravelRemoveAt(route: seq<int>, leg: (int, int) -> real, idx: int)
    requires 0 <= idx < |route|
    ensures Travel(RemoveAt(route, idx), leg) == Travel(route, leg)
      - (if idx > 0 then leg(route[idx - 1], route[idx]) else 0.0)
      - (if idx < |route| - 1 then leg(route[idx], route[idx + 1]) else 0.0)
      + (if 0 < idx < |route| - 1 then leg(route[idx - 1], route[idx + 1]) else 0.0)
  {
    var r := RemoveAt(route, idx);
    if |route| == 1 {
    } else if idx == |route| - 1 {
      assert r == route[..idx];
    } else if idx == 0 {
      assert r == route[1..];
      TravelFront(route, leg);
    } else {
      TravelRemoveInterior(route, leg, idx);
    }
  }

  lemma TravelRemoveInterior(route: seq<int>, leg: (int, int) -> real, idx: int)
    requires 0 < idx < |route| - 1
    ensures Travel(RemoveAt(route, idx), leg) == Travel(route, leg)
      - leg(route[idx - 1], route[idx]) - leg(route[idx], route[idx + 1])
      + leg(route[idx - 1], route[idx + 1])
  {
    var r := RemoveAt(route, idx);
    var tail := route[idx + 1..];
    TravelSplit(route, leg, idx);
    assert route[..idx + 1][..idx] == route[..idx];
    TravelFront(route[idx..], leg);
    assert route[idx..][1..] == tail;
    TravelSplit(r, leg, idx - 1);
    assert r[..idx] == route[..idx];
    TravelFront(r[idx - 1..], leg);
    assert r[idx - 1..][1..] == tail;
  }

  /** The time of one operation: one repair, or loading and unloading one bike. */
  function SingleOperatingTime(p: Params, isRPM: bool): (t: real)
    requires ValidParams(p)
    ensures t > 0.0
  {
    if isRPM then p.repairTime as real else 2.0 * p.loadingTime as real
  }

  /** The priority vector entry of station s (0 outside the vector). */
  function PriorityOf(pv: seq<real>, s: int): real {
    if 0 <= s < |pv| then pv[s] else 0.0
  }

  /** Index of the last occurrence of x in s, or -1 (std::find from rbegin). */
  function LastIndexOf(s: seq<int>, x: int): (k: int)
    ensures -1 <= k < |s|
    ensures k >= 0 ==> s[k] == x
    ensures forall j :: k < j < |s| ==> s[j] != x
  {
    if |s| == 0 then -1
    else if s[|s| - 1] == x then |s| - 1
    else LastIndexOf(s[..|s| - 1], x)
  }

  /** The route without the last occurrence of x, if there is one. */
  function RemoveLast(s: seq<int>, x: int): seq<int> {
    var k := LastIndexOf(s, x);
    if k < 0 then s else RemoveAt(s, k)
  }

  /** The route after removing the last occurrence of each of xs, in order. */
  function RemoveEach(s: seq<int>, xs: seq<int>): seq<int>
    decreases |xs|
  {
    if xs == [] then s
    else RemoveLast(RemoveEach(s, xs[..|xs| - 1]), xs[|xs| - 1])
  }

  /** Removing entries only ever drops entries of the route. */
  lemma {:induction false} RemoveEachShrinks(s: seq<int>, xs: seq<int>)
    ensures multiset(RemoveEach(s, xs)) <= multiset(s)
    decreases |xs|
  {
    if xs != [] {
      RemoveEachShrinks(s, xs[..|xs| - 1]);
    }
  }

  /** The non-depot entries of s, counted with multiplicity. */
  lemma {:induction false} NonDepotsMultiset(s: seq<int>)
    ensures multiset(NonDepots(s)) == multiset(s)[0 := 0]
  {
    if s != [] {
      NonDepotsMultiset(s[1..]);
      assert s == [s[0]] + s[1..];
      assert multiset(s) == multiset{s[0]} + multiset(s[1..]);
    }
  }

  /** The last occurrence of a station that occurs after the first entry is itself after the first entry. */
  lemma LastStationIndex(r: seq<int>, x: int)
    requires |r| >= 1 && x in r[1..]
    ensures 1 <= LastIndexOf(r, x) < |r| && r[LastIndexOf(r, x)] == x
  {
    var j :| 1 <= j < |r| && r[j] == x;
    assert LastIndexOf(r, x) >= j;
  }

  /** Removing a station entry after the first keeps the first entry and the depots and shrinks the interior by it. */
  lemma RemoveInterior(r: seq<int>, k: int)
    requires 1 <= k < |r| && r[k] != 0
    ensures RemoveAt(r, k)[0] == r[0]
    ensures multiset(RemoveAt(r, k)[1..]) == multiset(r[1..]) - multiset{r[k]}
    ensures multiset(RemoveAt(r, k))[0] == multiset(r)[0]
    ensures DepotEnded(r) ==> DepotEnded(RemoveAt(r, k))
  {
    InteriorMultiset(r, k);
    var r' := RemoveAt(r, k);
    if DepotEnded(r) {
      assert k != |r| - 1 && r'[|r'| - 1] == r[|r| - 1];
    }
  }

  /** Removing entry k >= 1 takes one copy of it off the entries after the first. */
  lemma InteriorMultiset(r: seq<int>, k: int)
    requires 1 <= k < |r|
    ensures multiset(RemoveAt(r, k)[1..]) == multiset(r[1..]) - multiset{r[k]}
  {
    var r' := RemoveAt(r, k);
    assert r' == r[..k] + r[k + 1..];
    assert r'[1..] == r[1..k] + r[k + 1..];
    assert r[1..] == r[1..k] + [r[k]] + r[k + 1..];
    assert multiset(r[1..]) == multiset(r[1..k]) + multiset{r[k]} + multiset(r[k + 1..]);
  }

  /**
   * Removing the last occurrence of a station that occurs after the first
   * entry keeps the first entry, every depot and depot ends, and takes one
   * copy of the station off the interior.
   */
  lemma RemoveLastStation(r: seq<int>, x: int)
    requires |r| >= 1 && x != 0 && x in r[1..]
    ensures var k := LastIndexOf(r, x);
      && 1 <= k < |r|
      && RemoveLast(r, x) == RemoveAt(r, k)
      && RemoveLast(r, x)[0] == r[0]
      && multiset(RemoveLast(r, x)[1..]) == multiset(r[1..]) - multiset{x}
      && multiset(RemoveLast(r, x))[0] == multiset(r)[0]
      && (DepotEnded(r) ==> DepotEnded(RemoveLast(r, x)))
  {
    LastStationIndex(r, x);
    RemoveInterior(r, LastIndexOf(r, x));
  }

  /** What holds after m removals: the route, its travel time and the stations still to try agree. */
  ghost predicate AdjustInv(route: seq<int>, r: seq<int>, cands: seq<int>, m: nat, operatingTime: real,
                            budget: real, leg: (int, int) -> real)
  {
    && |route| >= 1 && m <= |cands| && |r| == |route| - m >= 1 && r[0] == route[0]
    && r == RemoveEach(route, cands[..m])
    && operatingTime == budget - Travel(r, leg)
    && multiset(cands[m..]) == multiset(r[1..])[0 := 0]
    && multiset(r)[0] == multiset(route)[0]
    && (DepotEnded(route) ==> DepotEnded(r))
  }

  /** Each of the first m removals was made while the time left was below the boundary. */
  ghost predicate RemovedBelow(route: seq<int>, cands: seq<int>, m: nat, budget: real, leg: (int, int) -> real,
                               boundary: real)
  {
    m <= |cands| && forall j :: 0 <= j < m ==> budget - Travel(RemoveEach(route, cands[..j]), leg) < boundary
  }

  /** A removal made below the boundary extends RemovedBelow. */
  lemma RemovedBelowStep(route: seq<int>, cands: seq<int>, m: nat, budget: real, leg: (int, int) -> real,
                         boundary: real)
    requires RemovedBelow(route, cands, m, budget, leg, boundary) && m < |cands|
    requires budget - Travel(RemoveEach(route, cands[..m]), leg) < boundary
    ensures RemovedBelow(route, cands, m + 1, budget, leg, boundary)
  {
  }

  /** The time after removing entry `index`, updated leg by leg as Utils.cpp:124-136 does, for 0 < index. */
  function TimeAfterRemoval(r: seq<int>, index: int, operatingTime: real, leg: (int, int) -> real): real
    requires 0 < index < |r|
  {
    var t := operatingTime + leg(r[index - 1], r[index]);
    if index < |r| - 1 then
      t + leg(r[index], r[index + 1]) - leg(r[index - 1], r[index + 1])
    else t
  }

  /** The leg-by-leg update keeps the time equal to the budget minus the travel of the shortened route. */
  lemma TimeAfterRemovalExact(r: seq<int>, index: int, operatingTime: real, budget: real, leg: (int, int) -> real)
    requires 0 < index < |r| && operatingTime == budget - Travel(r, leg)
    ensures TimeAfterRemoval(r, index, operatingTime, leg) == budget - Travel(RemoveAt(r, index), leg)
  {
    TravelRemoveAt(r, leg, index);
  }

  /** Removing the last occurrence of the next station keeps AdjustInv. */
  lemma AdjustStep(route: seq<int>, r: seq<int>, cands: seq<int>, m: nat, operatingTime: real,
                   budget: real, leg: (int, int) -> real)
    requires AdjustInv(route, r, cands, m, operatingTime, budget, leg) && m < |cands|
    ensures var index := LastIndexOf(r, cands[m]);
      && 0 < index < |r|
      && AdjustInv(route, RemoveAt(r, index), cands, m + 1, TimeAfterRemoval(r, index, operatingTime, leg),
           budget, leg)
  {
    var x := cands[m];
    NextCandidateInRoute(r, cands, m);
    var index := LastIndexOf(r, x);
    RemoveLastStation(r, x);
    TimeAfterRemovalExact(r, index, operatingTime, budget, leg);
    RemoveEachStep(route, cands, m);
    CandidatesStep(r, cands, m);
  }

  /** One more removal extends RemoveEach by one station. */
  lemma RemoveEachStep(route: seq<int>, cands: seq<int>, m: nat)
    requires m < |cands|
    ensures RemoveEach(route, cands[..m + 1]) == RemoveLast(RemoveEach(route, cands[..m]), cands[m])
  {
    assert cands[..m + 1][..m] == cands[..m];
  }

  /** The stations still to try lose the one just removed from the interior. */
  lemma CandidatesStep(r: seq<int>, cands: seq<int>, m: nat)
    requires |r| >= 1 && m < |cands|
    requires multiset(cands[m..]) == multiset(r[1..])[0 := 0]
    requires cands[m] != 0 && cands[m] in r[1..]
    requires multiset(RemoveLast(r, cands[m])[1..]) == multiset(r[1..]) - multiset{cands[m]}
    ensures multiset(cands[m + 1..]) == multiset(RemoveLast(r, cands[m])[1..])[0 := 0]
  {
    assert cands[m..] == [cands[m]] + cands[m + 1..];
    MultisetDropStation(multiset(r[1..]), cands[m]);
  }

  /** The next station to try is a non-depot entry of the route after its first entry. */
  lemma NextCandidateInRoute(r: seq<int>, cands: seq<int>, m: nat)
    requires |r| >= 1 && m < |cands|
    requires multiset(cands[m..]) == multiset(r[1..])[0 := 0]
    ensures cands[m] != 0 && cands[m] in r[1..]
  {
    assert cands[m] in multiset(cands[m..]);
  }

  /** Taking one copy of a station off a multiset commutes with forgetting the depots. */
  lemma MultisetDropStation(ms: multiset<int>, x: int)
    requires x != 0
    ensures (ms - multiset{x})[0 := 0] == ms[0 := 0] - multiset{x}
  {
  }

  /** With no station left to try, the interior of the route is all depots. */
  lemma AdjustDone(route: seq<int>, r: seq<int>, cands: seq<int>, operatingTime: real,
                   budget: real, leg: (int, int) -> real)
    requires AdjustInv(route, r, cands, |cands|, operatingTime, budget, leg)
    ensures forall k :: 1 <= k < |r| ==> r[k] == 0
  {
    assert cands[|cands|..] == [];
    forall k | 1 <= k < |r| ensures r[k] == 0 {
      assert r[1..][k - 1] == r[k];
      assert r[k] in multiset(r[1..]);
      assert multiset(r[1..])[0 := 0][r[k]] == 0;
    }
  }

  /** The budget minus the travel of the route, leg by leg (Utils.cpp:100-101). */
  method TimeAfterTravel(budget: real, route: seq<int>, isRPM: bool, inst: Instance) returns (t: real)
    ensures t == budget - Travel(route, LegTime(inst, isRPM))
  {
    var leg := LegTime(inst, isRPM);
    t := budget;
    var i := 1;
    while i < |route|
      invariant 1 <= i <= |route| || (|route| == 0 && i == 1)
      invariant t == budget - Travel(route[..if i <= |route| then i else 0], leg)
    {
      assert route[..i + 1][..i] == route[..i];
      t := t - leg(route[i - 1], route[i]);
      i := i + 1;
    }
    if |route| > 0 {
      assert route[..i] == route;
    }
  }

  /**
   * routeAdjustment. The time left is the budget minus the travel of the
   * route. When it is below one operation's time, the non-depot entries
   * after the first are taken in order of increasing priority (`cands`) and
   * the last occurrence of each is removed, one at a time, until the time
   * left reaches that bound, so every removal happened while the time left
   * was still below it; the time left is updated with the legs each
   * removal changes. The extra results name the sorted stations and how many
   * of them were removed.
   */
  method RouteAdjustment(p: Params, route: seq<int>, pv: seq<real>, isRPM: bool, inst: Instance)
    returns (operatingTime: real, r: seq<int>, cands: seq<int>, m: nat)
    requires ValidParams(p)
    requires |route| >= 1
    ensures operatingTime == p.timeBudget - Travel(r, LegTime(inst, isRPM))
    ensures SortedBy(cands, s => PriorityOf(pv, s))
    ensures multiset(cands) == multiset(route[1..])[0 := 0]
    ensures m <= |cands| && r == RemoveEach(route, cands[..m])
    ensures p.timeBudget - Travel(route, LegTime(inst, isRPM)) >= SingleOperatingTime(p, isRPM) ==> r == route
    ensures m < |cands| ==> operatingTime >= SingleOperatingTime(p, isRPM)
    ensures forall j :: 0 <= j < m ==>
      p.timeBudget - Travel(RemoveEach(route, cands[..j]), LegTime(inst, isRPM)) < SingleOperatingTime(p, isRPM)
    ensures operatingTime < SingleOperatingTime(p, isRPM) ==> forall k :: 1 <= k < |r| ==> r[k] == 0
    ensures |r| == |route| - m >= 1 && r[0] == route[0]
    ensures multiset(r)[0] == multiset(route)[0]
    ensures DepotEnded(route) ==> DepotEnded(r)
  {
    var boundary := SingleOperatingTime(p, isRPM);
    var leg := LegTime(inst, isRPM);
    operatingTime := TimeAfterTravel(p.timeBudget, route, isRPM, inst);
    NonDepotsMultiset(route[1..]);
    cands := SortBy(NonDepots(route[1..]), s => PriorityOf(pv, s));
    m := 0;
    r := route;
    if operatingTime >= boundary {
      return;
    }
    assert cands[..0] == [];
    operatingTime, r, m := RemoveWhileShort(route, cands, operatingTime, p.timeBudget, leg, boundary);
  }

  /**
   * The removal loop of routeAdjustment (Utils.cpp:115-142): while stations
   * are left to try and the time left is below the boundary, the last
   * occurrence of the next station is removed and the time updated.
   */
  method RemoveWhileShort(route: seq<int>, cands: seq<int>, time0: real, budget: real, leg: (int, int) -> real,
                          boundary: real)
    returns (operatingTime: real, r: seq<int>, m: nat)
    requires AdjustInv(route, route, cands, 0, time0, budget, leg)
    ensures AdjustInv(route, r, cands, m, operatingTime, budget, leg)
    ensures RemovedBelow(route, cands, m, budget, leg, boundary)
    ensures m < |cands| ==> operatingTime >= boundary
    ensures operatingTime < boundary ==> forall k :: 1 <= k < |r| ==> r[k] == 0
  {
    operatingTime, r, m := time0, route, 0;
    while m < |cands| && operatingTime < boundary
      invariant AdjustInv(route, r, cands, m, operatingTime, budget, leg)
      invariant RemovedBelow(route, cands, m, budget, leg, boundary)
    {
      RemovedBelowStep(route, cands, m, budget, leg, boundary);
      var index := LastIndexOf(r, cands[m]);
      AdjustStep(route, r, cands, m, operatingTime, budget, leg);
      operatingTime := UpdateTime(r, index, operatingTime, leg);
      r := RemoveAt(r, index);
      m := m + 1;
    }
    if operatingTime < boundary {
      AdjustDone(route, r, cands, operatingTime, budget, leg);
    }
  }

  /** The time update of one removal, leg by leg (Utils.cpp:124-136). */
  method UpdateTime(r: seq<int>, index: int, operatingTime: real, leg: (int, int) -> real) returns (t: real)
    requires 0 < index < |r|
    ensures t == TimeAfterRemoval(r, index, operatingTime, leg)
  {
    t := operatingTime;
    if index > 0 {
      t := t + leg(r[index - 1], r[index]);
    }
    if index < |r| - 1 {
      t := t + leg(r[index], r[index + 1]);
    }
    if index > 0 && index < |r| - 1 {
      t := t - leg(r[index - 1], r[index + 1]);
    }
  }

  /** One station of the route, as getMaxOpTime allots its time (helpers/RepInfo.h). */
  datatype StationInfo = StationInfo(
    stationID: int,
    priority: real,
    requiredTime: real,
    maxOpTime: real,
    insufficientTime: real)

  function Max(a: int, b: int): int { if a >= b then a else b }

  /** The priority of station s at the given stock: the repairman table or the truck table. */
  function StationPriority(inst: Instance, usable: seq<int>, broken: seq<int>, s: int, isRPM: bool): real
    requires 0 <= s < |usable| && s < |broken|
  {
    if isRPM then inst.priorityR(s, usable[s], broken[s]) else inst.priority(s, usable[s], broken[s])
  }

  /**
   * The time a station's whole task takes: repairing every broken bike, or
   * loading its usable surplus, unloading its usable deficit and loading
   * every broken bike (Utils.cpp:46-58).
   */
  function RequiredTime(p: Params, inst: Instance, usable: seq<int>, broken: seq<int>, s: int, isRPM: bool): (t: real)
    requires ValidParams(p)
    requires 0 < s < |inst.networkInfo| && s < |usable| && s < |broken|
    ensures broken[s] >= 0 ==> t >= 0.0
  {
    if isRPM then (broken[s] * p.repairTime) as real
    else
      var target := inst.networkInfo[s].targetUsable;
      (2 * (Max(usable[s] - target, 0) + broken[s] + Max(target - usable[s], 0)) * p.loadingTime) as real
  }

  /**
   * The priority vector of getMaxOpTime (Utils.cpp:32-40): every station
   * visited after the first entry gets its priority at the current stock,
   * every other slot stays 0.
   */
  method PriorityVector(p: Params, inst: Instance, usable: seq<int>, broken: seq<int>, route: seq<int>, isRPM: bool)
    returns (pv: seq<real>)
    requires |usable| == p.nbClients + 1 && |broken| == p.nbClients + 1
    requires RouteIds(p, route) && |route| >= 1
    ensures |pv| == p.nbClients + 2
    ensures forall s :: 0 <= s < |pv| ==>
      pv[s] == if s != 0 && s in route[1..] then StationPriority(inst, usable, broken, s, isRPM) else 0.0
  {
    pv := seq(p.nbClients + 2, _ => 0.0);
    var i := 1;
    while i < |route|
      invariant 1 <= i <= |route| && |pv| == p.nbClients + 2
      invariant forall s :: 0 <= s < |pv| ==>
        pv[s] == if s != 0 && s in route[1..i] then StationPriority(inst, usable, broken, s, isRPM) else 0.0
    {
      assert route[1..i + 1] == route[1..i] + [route[i]];
      var s := route[i];
      pv := pv[s := if s == 0 then 0.0 else StationPriority(inst, usable, broken, s, isRPM)];
      i := i + 1;
    }
    assert route[1..i] == route[1..];
  }

  /** The sum of the priorities of the stations 1..n the route visits. */
  function RoutePrioritySum(route: seq<int>, pv: seq<real>, n: int): real
    decreases n
  {
    if n <= 0 then 0.0
    else RoutePrioritySum(route, pv, n - 1) + (if n in route then PriorityOf(pv, n) else 0.0)
  }

  /** What getMaxOpTime records for station s before any time is allotted. */
  predicate FreshInfo(p: Params, inst: Instance, usable: seq<int>, broken: seq<int>, pv: seq<real>,
                      isRPM: bool, info: StationInfo)
    requires ValidParams(p)
    requires |inst.networkInfo| == p.nbClients + 1 && |usable| == p.nbClients + 1 && |broken| == p.nbClients + 1
  {
    && 1 <= info.stationID <= p.nbClients
    && info.priority == PriorityOf(pv, info.stationID)
    && info.requiredTime == RequiredTime(p, inst, usable, broken, info.stationID, isRPM)
  }

  /**
   * The station records of getMaxOpTime (Utils.cpp:41-61): one per distinct
   * non-depot station of the route, in increasing id order (std::set), with
   * the sum of their priorities (Utils.cpp:64-65).
   */
  method StationInfos(p: Params, inst: Instance, usable: seq<int>, broken: seq<int>, route: seq<int>,
                      pv: seq<real>, isRPM: bool)
    returns (infos: seq<StationInfo>, prioritySum: real)
    requires ValidParams(p)
    requires |inst.networkInfo| == p.nbClients + 1 && |usable| == p.nbClients + 1 && |broken| == p.nbClients + 1
    ensures forall k :: 0 <= k < |infos| ==>
      FreshInfo(p, inst, usable, broken, pv, isRPM, infos[k]) && infos[k].stationID in route
    ensures forall k :: 0 <= k < |infos| ==> infos[k].maxOpTime == 0.0 && infos[k].insufficientTime == 0.0
    ensures forall s :: 1 <= s <= p.nbClients && s in route ==> exists k :: 0 <= k < |infos| && infos[k].stationID == s
    ensures prioritySum == RoutePrioritySum(route, pv, p.nbClients)
  {
    infos := [];
    prioritySum := 0.0;
    var s := 1;
    while s <= p.nbClients
      invariant 1 <= s <= p.nbClients + 1
      invariant forall k :: 0 <= k < |infos| ==>
        FreshInfo(p, inst, usable, broken, pv, isRPM, infos[k]) && infos[k].stationID in route
      invariant forall k :: 0 <= k < |infos| ==> infos[k].maxOpTime == 0.0 && infos[k].insufficientTime == 0.0
      invariant forall x :: 1 <= x < s && x in route ==> exists k :: 0 <= k < |infos| && infos[k].stationID == x
      invariant prioritySum == RoutePrioritySum(route, pv, s - 1)
    {
      if s in route {
        ghost var before := infos;
        infos := infos + [StationInfo(s, PriorityOf(pv, s), RequiredTime(p, inst, usable, broken, s, isRPM), 0.0, 0.0)];
        prioritySum := prioritySum + PriorityOf(pv, s);
        forall x | 1 <= x <= s && x in route
          ensures exists k :: 0 <= k < |infos| && infos[k].stationID == x
        {
          if x == s {
            assert infos[|infos| - 1].stationID == s;
          } else {
            var k :| 0 <= k < |before| && before[k].stationID == x;
            assert infos[k].stationID == x;
          }
        }
      }
      s := s + 1;
    }
  }

  /** The proportional share operatingTime·priority/prioritySum, as a function of the priority. */
  function ShareOf(operatingTime: real, prioritySum: real): (f: real -> real)
    ensures prioritySum != 0.0 ==> forall x :: f(x) == operatingTime * x / prioritySum
  {
    x => if prioritySum == 0.0 then 0.0 else operatingTime * x / prioritySum
  }

  /** A station's share, capped at the time it needs. */
  function CappedShare(priority: real, requiredTime: real, shareOf: real -> real): real {
    if shareOf(priority) < requiredTime then shareOf(priority) else requiredTime
  }

  /**
   * A record ready for the hand-out: its allotment is within its required
   * time and its shortfall, if any, is recorded.
   */
  predicate ShareReady(info: StationInfo) {
    && info.maxOpTime <= info.requiredTime
    && (info.maxOpTime < info.requiredTime ==> info.insufficientTime == info.requiredTime - info.maxOpTime)
    && (info.maxOpTime == info.requiredTime ==> info.insufficientTime <= 0.0)
  }

  /**
   * The proportional split (Utils.cpp:66-75): each station gets
   * operatingTime·priority/prioritySum, capped at its required time; what
   * the caps cut off is collected as extra time, and a station below its
   * required time records the shortfall.
   */
  method ProportionalShares(infos: seq<StationInfo>, shareOf: real -> real)
    returns (r: seq<StationInfo>, extraTime: real)
    requires forall k :: 0 <= k < |infos| ==> infos[k].insufficientTime == 0.0
    ensures |r| == |infos|
    ensures forall k :: 0 <= k < |r| ==>
      && r[k] == infos[k].(maxOpTime := r[k].maxOpTime, insufficientTime := r[k].insufficientTime)
      && r[k].maxOpTime == CappedShare(infos[k].priority, infos[k].requiredTime, shareOf)
      && AllotBounds(r[k], shareOf, false)
      && ShareReady(r[k])
    ensures extraTime >= 0.0
  {
    r := infos;
    extraTime := 0.0;
    var k := 0;
    while k < |r|
      invariant 0 <= k <= |r| == |infos| && extraTime >= 0.0
      invariant forall j :: k <= j < |r| ==> r[j] == infos[j]
      invariant forall j :: 0 <= j < k ==>
        && r[j] == infos[j].(maxOpTime := r[j].maxOpTime, insufficientTime := r[j].insufficientTime)
        && r[j].maxOpTime == CappedShare(infos[j].priority, infos[j].requiredTime, shareOf)
        && AllotBounds(r[j], shareOf, false)
        && ShareReady(r[j])
    {
      var station := r[k];
      var share := shareOf(station.priority);
      if share < station.requiredTime {
        station := station.(maxOpTime := share, insufficientTime := station.requiredTime - share);
      } else {
        extraTime := extraTime + (share - station.requiredTime);
        station := station.(maxOpTime := station.requiredTime);
      }
      r := r[k := station];
      k := k + 1;
    }
  }

  /**
   * The hand-out of the extra time (Utils.cpp:77-85): stations are visited
   * in the given order; while more than one operation's time is left, a
   * station short of time gets as much of it as it lacks.
   */
  method DistributeExtraTime(infos: seq<StationInfo>, extraTime: real, singleOperatingTime: real)
    returns (r: seq<StationInfo>, left: real)
    requires singleOperatingTime > 0.0 && extraTime >= 0.0
    requires forall k :: 0 <= k < |infos| ==> ShareReady(infos[k])
    ensures |r| == |infos| && 0.0 <= left <= extraTime
    ensures forall k :: 0 <= k < |r| ==>
      && r[k] == infos[k].(maxOpTime := r[k].maxOpTime)
      && infos[k].maxOpTime <= r[k].maxOpTime <= r[k].requiredTime
    ensures left <= singleOperatingTime || forall k :: 0 <= k < |r| ==> r[k].maxOpTime == r[k].requiredTime
  {
    r := infos;
    left := extraTime;
    var k := 0;
    while k < |r|
      invariant 0 <= k <= |r| == |infos| && 0.0 <= left <= extraTime
      invariant forall j :: 0 <= j < |r| ==>
        && r[j] == infos[j].(maxOpTime := r[j].maxOpTime)
        && infos[j].maxOpTime <= r[j].maxOpTime <= r[j].requiredTime
      invariant forall j :: k <= j < |r| ==> r[j] == infos[j]
      invariant left <= singleOperatingTime || forall j :: 0 <= j < k ==> r[j].maxOpTime == r[j].requiredTime
    {
      if left <= singleOperatingTime {
        break;
      }
      var station := r[k];
      if station.insufficientTime > 0.0 {
        var added := if station.insufficientTime < left then station.insufficientTime else left;
        station := station.(maxOpTime := station.maxOpTime + added);
        left := left - added;
      }
      r := r[k := station];
      k := k + 1;
    }
  }

  /** The allotment written into a vector indexed by station (Utils.cpp:86-88); later records win. */
  method AllotmentVector(n: nat, infos: seq<StationInfo>) returns (maxOp: seq<real>)
    requires forall k :: 0 <= k < |infos| ==> 1 <= infos[k].stationID <= n
    ensures |maxOp| == n + 1
    ensures forall s :: 0 <= s <= n && (forall k :: 0 <= k < |infos| ==> infos[k].stationID != s) ==> maxOp[s] == 0.0
    ensures forall s :: 0 <= s <= n && (exists k :: 0 <= k < |infos| && infos[k].stationID == s) ==>
      exists k :: 0 <= k < |infos| && infos[k].stationID == s && maxOp[s] == infos[k].maxOpTime
  {
    maxOp := seq(n + 1, _ => 0.0);
    var k := 0;
    while k < |infos|
      invariant 0 <= k <= |infos| && |maxOp| == n + 1
      invariant forall s :: 0 <= s <= n && (forall j :: 0 <= j < k ==> infos[j].stationID != s) ==> maxOp[s] == 0.0
      invariant forall s :: 0 <= s <= n && (exists j :: 0 <= j < k && infos[j].stationID == s) ==>
        exists j :: 0 <= j < k && infos[j].stationID == s && maxOp[s] == infos[j].maxOpTime
    {
      maxOp := maxOp[infos[k].stationID := infos[k].maxOpTime];
      k := k + 1;
    }
  }

  /** Two records of the same station: same id, priority and required time. */
  predicate SameStation(a: StationInfo, b: StationInfo) {
    a.stationID == b.stationID && a.priority == b.priority && a.requiredTime == b.requiredTime
  }

  /** The bounds on a station's allotment: at most its required time, at least its capped share. */
  predicate AllotBounds(info: StationInfo, shareOf: real -> real, zeroSum: bool) {
    && info.maxOpTime <= info.requiredTime
    && (!zeroSum ==> CappedShare(info.priority, info.requiredTime, shareOf) <= info.maxOpTime)
    && (zeroSum ==> info.maxOpTime == info.requiredTime)
  }

  /** Every record of `a` is a record of some station of `b`. */
  ghost predicate Traces(a: seq<StationInfo>, b: seq<StationInfo>) {
    forall x :: x in a ==> exists y :: y in b && SameStation(x, y)
  }

  /** Every station of `b` has a record in `a`. */
  ghost predicate CoversIds(a: seq<StationInfo>, b: seq<StationInfo>) {
    forall y :: y in b ==> exists x :: x in a && x.stationID == y.stationID
  }

  /** Records updated one by one keep their stations. */
  lemma PointwiseTraces(a: seq<StationInfo>, b: seq<StationInfo>)
    requires |a| == |b| && forall k :: 0 <= k < |a| ==> SameStation(a[k], b[k])
    ensures Traces(a, b) && CoversIds(a, b)
  {
    forall x | x in a ensures exists y :: y in b && SameStation(x, y) {
      var k :| 0 <= k < |a| && a[k] == x;
      assert b[k] in b;
    }
    forall y | y in b ensures exists x :: x in a && x.stationID == y.stationID {
      var k :| 0 <= k < |b| && b[k] == y;
      assert a[k] in a;
    }
  }

  /** Reordered records keep their stations. */
  lemma PermutationTraces(a: seq<StationInfo>, b: seq<StationInfo>)
    requires multiset(a) == multiset(b)
    ensures Traces(a, b) && CoversIds(a, b)
  {
    forall x | x in a ensures exists y :: y in b && SameStation(x, y) {
      assert x in multiset(b);
      assert x in b && SameStation(x, x);
    }
    forall y | y in b ensures exists x :: x in a && x.stationID == y.stationID {
      assert y in multiset(a);
      assert y in a;
    }
  }

  lemma TracesTrans(a: seq<StationInfo>, b: seq<StationInfo>, c: seq<StationInfo>)
    requires Traces(a, b) && Traces(b, c)
    ensures Traces(a, c)
  {
    forall x | x in a ensures exists z :: z in c && SameStation(x, z) {
      var y :| y in b && SameStation(x, y);
      var z :| z in c && SameStation(y, z);
    }
  }

  lemma CoversTrans(a: seq<StationInfo>, b: seq<StationInfo>, c: seq<StationInfo>)
    requires CoversIds(a, b) && CoversIds(b, c)
    ensures CoversIds(a, c)
  {
    forall z | z in c ensures exists x :: x in a && x.stationID == z.stationID {
      var y :| y in b && y.stationID == z.stationID;
      var x :| x in a && x.stationID == y.stationID;
    }
  }

  /** Reordered records keep their shares. */
  lemma PermutationKeepsShares(a: seq<StationInfo>, b: seq<StationInfo>, shareOf: real -> real)
    requires multiset(a) == multiset(b)
    requires forall k :: 0 <= k < |b| ==> ShareReady(b[k]) && AllotBounds(b[k], shareOf, false)
    ensures forall k :: 0 <= k < |a| ==> ShareReady(a[k]) && AllotBounds(a[k], shareOf, false)
  {
    forall k | 0 <= k < |a| ensures ShareReady(a[k]) && AllotBounds(a[k], shareOf, false) {
      assert a[k] in multiset(b);
      var j :| 0 <= j < |b| && b[j] == a[k];
    }
  }

  /** The zero-sum outcome: every station's allotment is its required time. */
  function AllRequired(infos: seq<StationInfo>): (r: seq<StationInfo>)
    ensures |r| == |infos|
    ensures forall k :: 0 <= k < |r| ==> SameStation(r[k], infos[k]) && r[k].maxOpTime == r[k].requiredTime
  {
    if infos == [] then [] else [infos[0].(maxOpTime := infos[0].requiredTime)] + AllRequired(infos[1..])
  }

  /**
   * The split and the hand-out of getMaxOpTime (Utils.cpp:64-85) on fresh
   * station records: every record comes back with its allotment within
   * AllotBounds, and every station keeps a record.
   */
  method Allot(infos: seq<StationInfo>, shareOf: real -> real, zeroSum: bool, singleOperatingTime: real)
    returns (allotted: seq<StationInfo>)
    requires singleOperatingTime > 0.0
    requires forall k :: 0 <= k < |infos| ==> infos[k].insufficientTime == 0.0
    ensures forall k :: 0 <= k < |allotted| ==> AllotBounds(allotted[k], shareOf, zeroSum)
    ensures Traces(allotted, infos) && CoversIds(allotted, infos)
  {
    if zeroSum {
      allotted := AllRequired(infos);
      PointwiseTraces(allotted, infos);
    } else {
      allotted := AllotShares(infos, shareOf, singleOperatingTime);
    }
  }

  /** The split and the hand-out when the priorities do not sum to zero. */
  method AllotShares(infos: seq<StationInfo>, shareOf: real -> real, singleOperatingTime: real)
    returns (allotted: seq<StationInfo>)
    requires singleOperatingTime > 0.0
    requires forall k :: 0 <= k < |infos| ==> infos[k].insufficientTime == 0.0
    ensures forall k :: 0 <= k < |allotted| ==> AllotBounds(allotted[k], shareOf, false)
    ensures Traces(allotted, infos) && CoversIds(allotted, infos)
  {
    var shares, extraTime := ProportionalShares(infos, shareOf);
    PointwiseTraces(shares, infos);
    var sorted := SortBy(shares, (i: StationInfo) => -i.priority);
    PermutationTraces(sorted, shares);
    PermutationKeepsShares(sorted, shares, shareOf);
    allotted, extraTime := DistributeExtraTime(sorted, extraTime, singleOperatingTime);
    PointwiseTraces(allotted, sorted);
    TracesTrans(allotted, sorted, shares);
    TracesTrans(allotted, shares, infos);
    CoversTrans(allotted, sorted, shares);
    CoversTrans(allotted, shares, infos);
  }

  /** A station record once getMaxOpTime has allotted its time. */
  predicate Allotted(p: Params, inst: Instance, usable: seq<int>, broken: seq<int>, pv: seq<real>, isRPM: bool,
                     operatingTime: real, prioritySum: real, info: StationInfo)
    requires ValidParams(p)
    requires |inst.networkInfo| == p.nbClients + 1 && |usable| == p.nbClients + 1 && |broken| == p.nbClients + 1
  {
    FreshInfo(p, inst, usable, broken, pv, isRPM, info) && AllotBounds(info, ShareOf(operatingTime, prioritySum), prioritySum == 0.0)
  }

  /**
   * getMaxOpTime (Utils.cpp:29-91): the time each station of the route may
   * spend on its operations. The route is first shortened by routeAdjustment
   * until its travel fits the budget; the time left is split among the
   * route's stations in proportion to their priorities, each capped at what
   * its task needs, and what the caps cut off goes to the stations still
   * short of time, highest priority first. When every priority is zero the
   * source divides 0 by 0; the NaN it gets makes every station's allotment
   * its required time and leaves nothing to hand out, which is what the
   * zero-sum branch here does.
   */
  method GetMaxOpTime(p: Params, usable: seq<int>, broken: seq<int>, route: seq<int>, isRPM: bool, inst: Instance)
    returns (maxOp: seq<real>, pv: seq<real>, r: seq<int>, operatingTime: real)
    requires ValidParams(p)
    requires |inst.networkInfo| == p.nbClients + 1 && |usable| == p.nbClients + 1 && |broken| == p.nbClients + 1
    requires RouteIds(p, route) && |route| >= 1
    ensures |pv| == p.nbClients + 2
    ensures forall s :: 0 <= s < |pv| ==>
      pv[s] == if s != 0 && s in route[1..] then StationPriority(inst, usable, broken, s, isRPM) else 0.0
    ensures operatingTime == p.timeBudget - Travel(r, LegTime(inst, isRPM))
    ensures operatingTime < SingleOperatingTime(p, isRPM) ==> forall k :: 1 <= k < |r| ==> r[k] == 0
    ensures p.timeBudget - Travel(route, LegTime(inst, isRPM)) >= SingleOperatingTime(p, isRPM) ==> r == route
    ensures multiset(r) <= multiset(route) && multiset(r)[0] == multiset(route)[0]
    ensures |r| >= 1 && r[0] == route[0] && RouteIds(p, r)
    ensures DepotEnded(route) ==> DepotEnded(r)
    ensures |maxOp| == p.nbClients + 1 && maxOp[0] == 0.0
    ensures forall s :: 1 <= s <= p.nbClients && s !in route ==> maxOp[s] == 0.0
    ensures forall s :: 1 <= s <= p.nbClients && s in route ==>
      maxOp[s] <= RequiredTime(p, inst, usable, broken, s, isRPM)
    ensures RoutePrioritySum(route, pv, p.nbClients) == 0.0 ==>
      forall s :: 1 <= s <= p.nbClients && s in route ==> maxOp[s] == RequiredTime(p, inst, usable, broken, s, isRPM)
    ensures RoutePrioritySum(route, pv, p.nbClients) != 0.0 ==>
      forall s :: 1 <= s <= p.nbClients && s in route ==>
        maxOp[s] >= CappedShare(PriorityOf(pv, s), RequiredTime(p, inst, usable, broken, s, isRPM),
                                ShareOf(operatingTime, RoutePrioritySum(route, pv, p.nbClients)))
    ensures ValidInstance(inst, p) && (forall s :: 1 <= s <= p.nbClients ==> broken[s] >= 0) && operatingTime >= 0.0 ==>
      forall s :: 0 <= s <= p.nbClients ==> maxOp[s] >= 0.0
  {
    pv := PriorityVector(p, inst, usable, broken, route, isRPM);
    if ValidInstance(inst, p) {
      PrioritiesNonNegative(p, inst, usable, broken, route, isRPM, pv);
    }
    var cands, m;
    operatingTime, r, cands, m := RouteAdjustment(p, route, pv, isRPM, inst);
    RemoveEachShrinks(route, cands[..m]);
    forall k | 0 <= k < |r| ensures IsStation(p, r[k]) {
      assert r[k] in multiset(r);
      assert r[k] in route;
    }
    maxOp := AllotStations(p, inst, usable, broken, route, pv, isRPM, operatingTime);

  }

  /** The priority of a station is never negative when the tables have no negative entry. */
  lemma StationPriorityNonNegative(p: Params, inst: Instance, usable: seq<int>, broken: seq<int>, s: int, isRPM: bool)
    requires ValidInstance(inst, p) && 0 <= s < |usable| && s < |broken|
    ensures StationPriority(inst, usable, broken, s, isRPM) >= 0.0
  {
    var u, b := usable[s], broken[s];
    assert inst.priority(s, u, b) >= 0.0 && inst.priorityR(s, u, b) >= 0.0;
  }

  /** A priority vector has no negative entry when the tables have none. */
  lemma PrioritiesNonNegative(p: Params, inst: Instance, usable: seq<int>, broken: seq<int>, route: seq<int>,
                              isRPM: bool, pv: seq<real>)
    requires ValidInstance(inst, p) && |usable| == p.nbClients + 1 && |broken| == p.nbClients + 1
    requires RouteIds(p, route) && |route| >= 1 && |pv| == p.nbClients + 2
    requires forall s :: 0 <= s < |pv| ==>
      pv[s] == if s != 0 && s in route[1..] then StationPriority(inst, usable, broken, s, isRPM) else 0.0
    ensures forall s :: 0 <= s < |pv| ==> pv[s] >= 0.0
  {
    forall s | 0 <= s < |pv| ensures pv[s] >= 0.0 {
      if s != 0 && s in route[1..] {
        var k :| 1 <= k < |route| && route[k] == s;
        assert IsStation(p, route[k]);
        StationPriorityNonNegative(p, inst, usable, broken, s, isRPM);
      }
    }
  }

  /**
   * The allotment part of getMaxOpTime (Utils.cpp:41-88): station records,
   * proportional split, hand-out of the extra time and the vector indexed
   * by station.
   */
  method AllotStations(p: Params, inst: Instance, usable: seq<int>, broken: seq<int>, route: seq<int>,
                       pv: seq<real>, isRPM: bool, operatingTime: real)
    returns (maxOp: seq<real>)
    requires ValidParams(p)
    requires |inst.networkInfo| == p.nbClients + 1 && |usable| == p.nbClients + 1 && |broken| == p.nbClients + 1
    ensures |maxOp| == p.nbClients + 1 && maxOp[0] == 0.0
    ensures forall s :: 1 <= s <= p.nbClients && s !in route ==> maxOp[s] == 0.0
    ensures forall s :: 1 <= s <= p.nbClients && s in route ==>
      maxOp[s] <= RequiredTime(p, inst, usable, broken, s, isRPM)
    ensures RoutePrioritySum(route, pv, p.nbClients) == 0.0 ==>
      forall s :: 1 <= s <= p.nbClients && s in route ==> maxOp[s] == RequiredTime(p, inst, usable, broken, s, isRPM)
    ensures RoutePrioritySum(route, pv, p.nbClients) != 0.0 ==>
      forall s :: 1 <= s <= p.nbClients && s in route ==>
        maxOp[s] >= CappedShare(PriorityOf(pv, s), RequiredTime(p, inst, usable, broken, s, isRPM),
                                ShareOf(operatingTime, RoutePrioritySum(route, pv, p.nbClients)))
    ensures operatingTime >= 0.0 && (forall s :: 0 <= s < |pv| ==> pv[s] >= 0.0) &&
            (forall s :: 1 <= s <= p.nbClients ==> broken[s] >= 0) ==>
      forall s :: 0 <= s <= p.nbClients ==> maxOp[s] >= 0.0
  {
    var infos, prioritySum := StationInfos(p, inst, usable, broken, route, pv, isRPM);
    var allotted := Allot(infos, ShareOf(operatingTime, prioritySum), prioritySum == 0.0, SingleOperatingTime(p, isRPM));
    AllottedRecords(p, inst, usable, broken, route, pv, isRPM, operatingTime, prioritySum, infos, allotted);
    AllottedCovers(p, route, infos, allotted);
    maxOp := AllotmentVector(p.nbClients, allotted);
    VectorBounds(p, inst, usable, broken, route, pv, isRPM, operatingTime, prioritySum, allotted, maxOp);
    if operatingTime >= 0.0 && (forall s :: 0 <= s < |pv| ==> pv[s] >= 0.0) &&
       (forall s :: 1 <= s <= p.nbClients ==> broken[s] >= 0) {
      RoutePrioritySumNonNegative(route, pv, p.nbClients);
      forall s | 1 <= s <= p.nbClients && s in route ensures maxOp[s] >= 0.0 {
        if prioritySum != 0.0 {
          ShareNonNegative(operatingTime, PriorityOf(pv, s), prioritySum);
        }
      }
    }
  }

  /** The priorities summed over the route are non-negative when every priority is. */
  lemma {:induction false} RoutePrioritySumNonNegative(route: seq<int>, pv: seq<real>, n: int)
    requires forall s :: 0 <= s < |pv| ==> pv[s] >= 0.0
    ensures RoutePrioritySum(route, pv, n) >= 0.0
    decreases n
  {
    if n > 0 {
      RoutePrioritySumNonNegative(route, pv, n - 1);
    }
  }

  /** A non-negative time split by non-negative weights gives non-negative shares. */
  lemma ShareNonNegative(operatingTime: real, priority: real, prioritySum: real)
    requires operatingTime >= 0.0 && priority >= 0.0 && prioritySum > 0.0
    ensures ShareOf(operatingTime, prioritySum)(priority) >= 0.0
  {
    assert operatingTime * priority >= 0.0;
  }

  /** The records Allot returns are allotted records of the route's stations. */
  lemma AllottedRecords(p: Params, inst: Instance, usable: seq<int>, broken: seq<int>, route: seq<int>,
                        pv: seq<real>, isRPM: bool, operatingTime: real, prioritySum: real,
                        infos: seq<StationInfo>, allotted: seq<StationInfo>)
    requires ValidParams(p)
    requires |inst.networkInfo| == p.nbClients + 1 && |usable| == p.nbClients + 1 && |broken| == p.nbClients + 1
    requires forall k :: 0 <= k < |infos| ==>
      FreshInfo(p, inst, usable, broken, pv, isRPM, infos[k]) && infos[k].stationID in route
    requires forall k :: 0 <= k < |allotted| ==> AllotBounds(allotted[k], ShareOf(operatingTime, prioritySum), prioritySum == 0.0)
    requires Traces(allotted, infos)
    ensures forall k :: 0 <= k < |allotted| ==>
      Allotted(p, inst, usable, broken, pv, isRPM, operatingTime, prioritySum, allotted[k]) && allotted[k].stationID in route
  {
    forall k | 0 <= k < |allotted|
      ensures FreshInfo(p, inst, usable, broken, pv, isRPM, allotted[k]) && allotted[k].stationID in route
    {
      assert allotted[k] in allotted;
      var y :| y in infos && SameStation(allotted[k], y);
      var j :| 0 <= j < |infos| && infos[j] == y;
      assert FreshInfo(p, inst, usable, broken, pv, isRPM, infos[j]);
    }
  }

  /** Every station of the route keeps a record through Allot. */
  lemma AllottedCovers(p: Params, route: seq<int>, infos: seq<StationInfo>, allotted: seq<StationInfo>)
    requires forall s :: 1 <= s <= p.nbClients && s in route ==> exists k :: 0 <= k < |infos| && infos[k].stationID == s
    requires CoversIds(allotted, infos)
    ensures forall s :: 1 <= s <= p.nbClients && s in route ==> exists k :: 0 <= k < |allotted| && allotted[k].stationID == s
  {
    forall s | 1 <= s <= p.nbClients && s in route
      ensures exists k :: 0 <= k < |allotted| && allotted[k].stationID == s
    {
      var i :| 0 <= i < |infos| && infos[i].stationID == s;
      assert infos[i] in infos;
      var x :| x in allotted && x.stationID == s;
      var k :| 0 <= k < |allotted| && allotted[k] == x;
    }
  }

  /** What the allotted records say about each station carries over to the vector. */
  lemma VectorBounds(p: Params, inst: Instance, usable: seq<int>, broken: seq<int>, route: seq<int>,
                     pv: seq<real>, isRPM: bool, operatingTime: real, prioritySum: real,
                     allotted: seq<StationInfo>, maxOp: seq<real>)
    requires ValidParams(p)
    requires |inst.networkInfo| == p.nbClients + 1 && |usable| == p.nbClients + 1 && |broken| == p.nbClients + 1
    requires forall k :: 0 <= k < |allotted| ==>
      Allotted(p, inst, usable, broken, pv, isRPM, operatingTime, prioritySum, allotted[k]) && allotted[k].stationID in route
    requires forall s :: 1 <= s <= p.nbClients && s in route ==> exists k :: 0 <= k < |allotted| && allotted[k].stationID == s
    requires |maxOp| == p.nbClients + 1
    requires forall s :: 0 <= s <= p.nbClients && (forall k :: 0 <= k < |allotted| ==> allotted[k].stationID != s) ==> maxOp[s] == 0.0
    requires forall s :: 0 <= s <= p.nbClients && (exists k :: 0 <= k < |allotted| && allotted[k].stationID == s) ==>
      exists k :: 0 <= k < |allotted| && allotted[k].stationID == s && maxOp[s] == allotted[k].maxOpTime
    ensures maxOp[0] == 0.0
    ensures forall s :: 1 <= s <= p.nbClients && s !in route ==> maxOp[s] == 0.0
    ensures forall s :: 1 <= s <= p.nbClients && s in route ==>
      && maxOp[s] <= RequiredTime(p, inst, usable, broken, s, isRPM)
      && (prioritySum == 0.0 ==> maxOp[s] == RequiredTime(p, inst, usable, broken, s, isRPM))
      && (prioritySum != 0.0 ==>
            maxOp[s] >= CappedShare(PriorityOf(pv, s), RequiredTime(p, inst, usable, broken, s, isRPM),
                                    ShareOf(operatingTime, prioritySum)))
  {
    forall s | 1 <= s <= p.nbClients && s in route
      ensures maxOp[s] <= RequiredTime(p, inst, usable, broken, s, isRPM)
      ensures prioritySum == 0.0 ==> maxOp[s] == RequiredTime(p, inst, usable, broken, s, isRPM)
      ensures prioritySum != 0.0 ==>
        maxOp[s] >= CappedShare(PriorityOf(pv, s), RequiredTime(p, inst, usable, broken, s, isRPM),
                                ShareOf(operatingTime, prioritySum))
    {
      var k :| 0 <= k < |allotted| && allotted[k].stationID == s && maxOp[s] == allotted[k].maxOpTime;
      assert Allotted(p, inst, usable, broken, pv, isRPM, operatingTime, prioritySum, allotted[k]);
    }
  }
}
