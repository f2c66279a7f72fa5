/*
 * The repairman schedule amendment (helpers/Utils.cpp: repairmanSchemeAmendment).
 * Once every vehicle has a schedule, the time a repairman has left is spent
 * in two rounds: first on more repairs at the stations already on the
 * schedule, best gain first, then on stations no repairman visits, inserted
 * where they lengthen the tour least, best gain first. At each station the
 * number of repairs is the one, among those the broken stock and the time
 * allow, that leaves the station least dissatisfied.
 *
 * The schedule and the stock are passed by reference in the program; here
 * they are returned.
 */
module RepairAmendment {
  import opened Instances
  import opened Schemes
  import opened Sorting
  import opened Routes
  import opened TimeHelper
  import opened TimeAllotment
  import opened RepairAssignment

  /** A station and its priority: the pair<int, double> lists of the amendment. */
  datatype Candidate = Candidate(station: int, priority: real)

  /** The descending priority order of the amendment's sorts. */
  function NegGain(c: Candidate): real { -c.priority }

  /** The stations of a repairman schedule, in order. */
  function RepairStations(plan: seq<RepairEntry>): (r: seq<int>)
    ensures |r| == |plan| && forall k :: 0 <= k < |plan| ==> r[k] == plan[k].station
  {
    seq(|plan|, k requires 0 <= k < |plan| => plan[k].station)
  }

  /** All repairs of a schedule. */
  function RepairSum(plan: seq<RepairEntry>): int {
    if plan == [] then 0 else RepairSum(plan[..|plan| - 1]) + plan[|plan| - 1].repair
  }

  /** The repairs of a concatenation are those of its parts. */
  lemma {:induction false} RepairSumConcat(a: seq<RepairEntry>, b: seq<RepairEntry>)
    ensures RepairSum(a + b) == RepairSum(a) + RepairSum(b)
  {
    if b != [] {
      RepairSumConcat(a, b[..|b| - 1]);
      assert (a + b)[..|a + b| - 1] == a + b[..|b| - 1];
    } else {
      assert a + b == a;
    }
  }

  /** Station by station, the repairs of a concatenation are those of its parts. */
  lemma {:induction false} RepairedAtConcat(a: seq<RepairEntry>, b: seq<RepairEntry>, s: int)
    ensures RepairedAt(a + b, s) == RepairedAt(a, s) + RepairedAt(b, s)
  {
    if b != [] {
      RepairedAtConcat(a, b[..|b| - 1], s);
      assert (a + b)[..|a + b| - 1] == a + b[..|b| - 1];
    } else {
      assert a + b == a;
    }
  }

  /** The repairs of every entry after the first. */
  function Work(plan: seq<RepairEntry>): int
    requires |plan| >= 1
  {
    RepairSum(plan) - plan[0].repair
  }

  /**
   * The time the repairman's schedule takes (Utils.cpp:525-531): the legs
   * at 1.68 times their distance, plus the repairs of every entry after the
   * first.
   */
  function ScheduleTime(p: Params, inst: Instance, plan: seq<RepairEntry>): real
    requires ValidParams(p) && |plan| >= 1
  {
    Travel(RepairStations(plan), LegTime(inst, true)) + RepairTime(p, Work(plan))
  }

  /** How much one more repair lowers the dissatisfaction of station s (Utils.cpp:532-533, 581-582). */
  function Gain(inst: Instance, u: seq<int>, b: seq<int>, s: int): real
    requires 0 <= s < |u| && s < |b|
  {
    inst.dissat(s, u[s], b[s]) - inst.dissat(s, u[s] + 1, b[s] - 1)
  }

  /** Station s is worth one more repair: it has broken bikes and a repair would lower its dissatisfaction. */
  predicate Worth(inst: Instance, u: seq<int>, b: seq<int>, s: int)
    requires 0 <= s < |u| && s < |b|
  {
    s != 0 && b[s] > 0 && Gain(inst, u, b, s) > 0.0
  }

  /** The stations of `stations` worth a repair, with their gains, in order (Utils.cpp:531-535). */
  function InRoute(inst: Instance, u: seq<int>, b: seq<int>, stations: seq<int>): (c: seq<Candidate>)
    requires forall k :: 0 <= k < |stations| ==> 0 <= stations[k] < |u| && stations[k] < |b|
    ensures forall x :: x in c ==> x.station in stations && Worth(inst, u, b, x.station) && x.priority == Gain(inst, u, b, x.station)
    ensures forall k :: 0 <= k < |stations| && Worth(inst, u, b, stations[k]) ==>
      Candidate(stations[k], Gain(inst, u, b, stations[k])) in c
  {
    if stations == [] then []
    else
      var s := stations[|stations| - 1];
      var front := stations[..|stations| - 1];
      assert forall k :: 0 <= k < |front| ==> front[k] == stations[k];
      InRoute(inst, u, b, front) + (if Worth(inst, u, b, s) then [Candidate(s, Gain(inst, u, b, s))] else [])
  }

  /** The stations 1..n outside `visited` worth a repair, with their gains, in station order (Utils.cpp:576-587). */
  function Repairable(inst: Instance, u: seq<int>, b: seq<int>, visited: set<int>, n: int): (c: seq<Candidate>)
    requires 0 <= n < |u| && n < |b|
  {
    if n == 0 then []
    else
      var tail := if n !in visited && Worth(inst, u, b, n) then [Candidate(n, Gain(inst, u, b, n))] else [];
      Repairable(inst, u, b, visited, n - 1) + tail
  }

  /** The candidates are exactly the stations 1..n outside `visited` worth a repair, each with its gain. */
  lemma {:induction false} RepairableMembers(inst: Instance, u: seq<int>, b: seq<int>, visited: set<int>, n: int)
    requires 0 <= n < |u| && n < |b|
    ensures forall x :: x in Repairable(inst, u, b, visited, n) ==>
      1 <= x.station <= n && x.station !in visited && Worth(inst, u, b, x.station) && x.priority == Gain(inst, u, b, x.station)
    ensures forall s :: 1 <= s <= n && s !in visited && Worth(inst, u, b, s) ==> Candidate(s, Gain(inst, u, b, s)) in Repairable(inst, u, b, visited, n)
  {
    if n > 0 {
      RepairableMembers(inst, u, b, visited, n - 1);
    }
  }

  /** The dissatisfaction of station s after i of its broken bikes are repaired. */
  function DissatAfter(inst: Instance, s: int, u: int, b: int, i: int): real {
    inst.dissat(s, u + i, b - i)
  }

  /**
   * The number of repairs, from 0 to maxRepair, that leaves station s least
   * dissatisfied; the smallest such number (Utils.cpp:546-555, 621-631).
   */
  method BestRepair(inst: Instance, s: int, u: int, b: int, maxRepair: int) returns (actual: int)
    ensures maxRepair >= 0 ==> 0 <= actual <= maxRepair
    ensures maxRepair < 0 ==> actual == 0
    ensures forall i :: 0 <= i <= maxRepair ==> DissatAfter(inst, s, u, b, actual) <= DissatAfter(inst, s, u, b, i)
    ensures forall i :: 0 <= i < actual ==> DissatAfter(inst, s, u, b, actual) < DissatAfter(inst, s, u, b, i)
  {
    var best := DissatAfter(inst, s, u, b, 0);
    actual := 0;
    var i := 0;
    while i <= maxRepair
      invariant 0 <= actual && (if maxRepair >= 0 then i <= maxRepair + 1 else i == 0) && (actual == 0 || actual < i)
      invariant best == DissatAfter(inst, s, u, b, actual)
      invariant forall j :: 0 <= j < i ==> best <= DissatAfter(inst, s, u, b, j)
      invariant forall j :: 0 <= j < actual ==> best < DissatAfter(inst, s, u, b, j)
    {
      var cur := DissatAfter(inst, s, u, b, i);
      if cur < best {
        best := cur;
        actual := i;
      }
      i := i + 1;
    }
  }

  /** The time inserting x before entry i of `stations` adds to a repairman's tour (Utils.cpp:599-602). */
  function InsertionCost(inst: Instance, stations: seq<int>, i: int, x: int): real
    requires 0 < i < |stations|
  {
    (inst.dist(stations[i - 1], x) + inst.dist(x, stations[i]) - inst.dist(stations[i - 1], stations[i])) * 1.68
  }

  /** The first cheapest place to insert x, between two entries of a tour of two or more (Utils.cpp:593-607). */
  method CheapestInsertion(inst: Instance, stations: seq<int>, x: int) returns (idx: int, cost: real)
    requires |stations| >= 2
    ensures 1 <= idx < |stations| && cost == InsertionCost(inst, stations, idx, x)
    ensures forall i :: 1 <= i < |stations| ==> cost <= InsertionCost(inst, stations, i, x)
    ensures forall i :: 1 <= i < idx ==> cost < InsertionCost(inst, stations, i, x)
  {
    idx, cost := 1, InsertionCost(inst, stations, 1, x);
    var i := 1;
    while i < |stations|
      invariant 1 <= idx <= i <= |stations| && (idx == 1 || idx < i) && cost == InsertionCost(inst, stations, idx, x)
      invariant forall j :: 1 <= j < i ==> cost <= InsertionCost(inst, stations, j, x)
      invariant forall j :: 1 <= j < idx ==> cost < InsertionCost(inst, stations, j, x)
    {
      var c := InsertionCost(inst, stations, i, x);
      if c < cost {
        idx, cost := i, c;
      }
      i := i + 1;
    }
  }

  /** Inserting x between two entries adds exactly the insertion cost to the travel. */
  lemma TravelInsert(inst: Instance, stations: seq<int>, i: int, x: int)
    requires 0 < i < |stations|
    ensures Travel(InsertAt(stations, i, x), LegTime(inst, true)) ==
      Travel(stations, LegTime(inst, true)) + InsertionCost(inst, stations, i, x)
  {
    var r := InsertAt(stations, i, x);
    var leg := LegTime(inst, true);
    assert RemoveAt(r, i) == stations;
    TravelRemoveInterior(r, leg, i);
    assert r[i - 1] == stations[i - 1] && r[i + 1] == stations[i];
  }

  /** The repairs of one entry alone. */
  lemma RepairedAtSingle(e: RepairEntry, s: int)
    ensures RepairedAt([e], s) == (if e.station == s then e.repair else 0)
    ensures RepairSum([e]) == e.repair
  {
    assert [e][..0] == [];
  }

  /** Replacing entry k changes the repairs of its station by the difference. */
  lemma RepairsUpdate(plan: seq<RepairEntry>, k: int, e: RepairEntry, s: int)
    requires 0 <= k < |plan|
    ensures RepairedAt(plan[k := e], s) == RepairedAt(plan, s)
      - (if plan[k].station == s then plan[k].repair else 0) + (if e.station == s then e.repair else 0)
    ensures RepairSum(plan[k := e]) == RepairSum(plan) - plan[k].repair + e.repair
  {
    var a, c := plan[..k], plan[k + 1..];
    assert plan == a + [plan[k]] + c;
    assert plan[k := e] == a + [e] + c;
    RepairedAtConcat(a + [plan[k]], c, s);
    RepairedAtConcat(a, [plan[k]], s);
    RepairedAtConcat(a + [e], c, s);
    RepairedAtConcat(a, [e], s);
    RepairSumConcat(a + [plan[k]], c);
    RepairSumConcat(a, [plan[k]]);
    RepairSumConcat(a + [e], c);
    RepairSumConcat(a, [e]);
    RepairedAtSingle(plan[k], s);
    RepairedAtSingle(e, s);
  }

  /** The schedule with `e` inserted before entry i. */
  function InsertEntry(plan: seq<RepairEntry>, i: int, e: RepairEntry): (r: seq<RepairEntry>)
    requires 0 <= i <= |plan|
    ensures |r| == |plan| + 1 && r[i] == e
    ensures forall k :: 0 <= k < i ==> r[k] == plan[k]
    ensures forall k :: i < k < |r| ==> r[k] == plan[k - 1]
  {
    plan[..i] + [e] + plan[i..]
  }

  /** Inserting an entry adds its repairs to its station and to the total. */
  lemma RepairsInsert(plan: seq<RepairEntry>, i: int, e: RepairEntry, s: int)
    requires 0 <= i <= |plan|
    ensures RepairedAt(InsertEntry(plan, i, e), s) == RepairedAt(plan, s) + (if e.station == s then e.repair else 0)
    ensures RepairSum(InsertEntry(plan, i, e)) == RepairSum(plan) + e.repair
  {
    var a, c := plan[..i], plan[i..];
    assert plan == a + c;
    assert InsertEntry(plan, i, e) == (a + [e]) + c;
    RepairedAtConcat(a + [e], c, s);
    RepairedAtConcat(a, [e], s);
    RepairedAtConcat(a, c, s);
    RepairSumConcat(a + [e], c);
    RepairSumConcat(a, [e]);
    RepairSumConcat(a, c);
    RepairedAtSingle(e, s);
  }

  /** Inserting an entry inserts its station into the tour. */
  lemma StationsInsert(plan: seq<RepairEntry>, i: int, e: RepairEntry)
    requires 0 <= i <= |plan|
    ensures RepairStations(InsertEntry(plan, i, e)) == InsertAt(RepairStations(plan), i, e.station)
  {
    var r, st := RepairStations(InsertEntry(plan, i, e)), InsertAt(RepairStations(plan), i, e.station);
    assert |r| == |st|;
    forall k | 0 <= k < |r| ensures r[k] == st[k] {
      if k > i {
        assert st[k] == RepairStations(plan)[k - 1];
      }
    }
  }

  /**
   * The repairs at station s with u usable and b broken bikes and `extra`
   * time left (Utils.cpp:545-555, 617-631): the best number up to what the
   * broken stock and the time allow.
   */
  method RepairCount(p: Params, inst: Instance, s: int, u: int, b: int, extra: real) returns (actual: int)
    requires ValidParams(p) && extra >= 0.0
    ensures 0 <= actual && (b >= 0 ==> actual <= b) && (b < 0 ==> actual == 0)
    ensures RepairTime(p, actual) <= extra
    ensures inst.dissat(s, u + actual, b - actual) <= inst.dissat(s, u, b)
  {
    MaxRepairQNonNegative(p.repairTime, extra);
    var byTime := MaxRepairQByTime(p.repairTime, extra);
    var maxRepair := if b <= byTime then b else byTime;
    actual := BestRepair(inst, s, u, b, maxRepair);
    if maxRepair >= 0 {
      assert DissatAfter(inst, s, u, b, actual) <= DissatAfter(inst, s, u, b, 0);
      RepairTimeFits(p.repairTime, extra, actual);
      TimesIsProduct(actual, p.repairTime);
    }
  }

  /** Schedule q holds n more repairs at station x than schedule r, and the same at every other station. */
  ghost predicate Shifted(r: seq<RepairEntry>, q: seq<RepairEntry>, x: int, n: int) {
    forall t :: RepairedAt(q, t) == RepairedAt(r, t) + (if t == x then n else 0)
  }

  /** Shifts at one station add up. */
  lemma ShiftedTrans(r: seq<RepairEntry>, q: seq<RepairEntry>, o: seq<RepairEntry>, x: int, n: int, m: int)
    requires Shifted(r, q, x, n) && Shifted(q, o, x, m)
    ensures Shifted(r, o, x, n + m)
  {
  }

  /**
   * One more round of repairs at entry k of the schedule (Utils.cpp:545-559,
   * 617-635): as many as the broken stock and the time left allow and leave
   * the station least dissatisfied. The stock and the time left follow.
   */
  method RepairMore(p: Params, inst: Instance, plan: seq<RepairEntry>, u: seq<int>, b: seq<int>, extra: real,
                    k: int, s: int)
    returns (plan': seq<RepairEntry>, u': seq<int>, b': seq<int>, extra': real, actual: int)
    requires ValidParams(p) && |u| == |b| == p.nbClients + 1 && 0 <= s <= p.nbClients
    requires 1 <= k < |plan| && plan[k].station == s && extra >= 0.0
    ensures plan' == plan[k := plan[k].(repair := plan[k].repair + actual)]
    ensures RepairStations(plan') == RepairStations(plan)
    ensures u' == u[s := u[s] + actual] && b' == b[s := b[s] - actual]
    ensures 0 <= actual && (b[s] >= 0 ==> actual <= b[s]) && (b[s] < 0 ==> actual == 0)
    ensures inst.dissat(s, u'[s], b'[s]) <= inst.dissat(s, u[s], b[s])
    ensures Shifted(plan, plan', s, actual)
    ensures ScheduleTime(p, inst, plan') == ScheduleTime(p, inst, plan) + RepairTime(p, actual)
    ensures extra' == extra - RepairTime(p, actual) && extra' >= 0.0
  {
    actual := RepairCount(p, inst, s, u[s], b[s], extra);
    var e := plan[k].(repair := plan[k].repair + actual);
    plan' := plan[k := e];
    u', b' := u[s := u[s] + actual], b[s := b[s] - actual];
    extra' := extra - RepairTime(p, actual);
    UpdateFacts(p, inst, plan, k, e);
  }

  /** Changing the repairs of entry k >= 1 shifts its station's repairs and the schedule's time accordingly. */
  lemma UpdateFacts(p: Params, inst: Instance, plan: seq<RepairEntry>, k: int, e: RepairEntry)
    requires ValidParams(p) && 1 <= k < |plan| && e.station == plan[k].station
    ensures RepairStations(plan[k := e]) == RepairStations(plan)
    ensures Shifted(plan, plan[k := e], e.station, e.repair - plan[k].repair)
    ensures ScheduleTime(p, inst, plan[k := e]) == ScheduleTime(p, inst, plan) + RepairTime(p, e.repair - plan[k].repair)
  {
    var plan' := plan[k := e];
    forall t ensures RepairedAt(plan', t) == RepairedAt(plan, t) + (if t == e.station then e.repair - plan[k].repair else 0) {
      RepairsUpdate(plan, k, e, t);
    }
    RepairsUpdate(plan, k, e, 0);
    assert RepairStations(plan') == RepairStations(plan);
    assert Work(plan') == Work(plan) + (e.repair - plan[k].repair);
    RepairTimeAdd(p, Work(plan), e.repair - plan[k].repair);
  }

  /**
   * Inserting station x where it lengthens the tour least, when the time
   * left then still exceeds one repair, and repairing there
   * (Utils.cpp:593-636).
   */
  method InsertStation(p: Params, inst: Instance, plan: seq<RepairEntry>, u: seq<int>, b: seq<int>, extra: real, x: int)
    returns (plan': seq<RepairEntry>, u': seq<int>, b': seq<int>, extra': real, inserted: bool, idx: int, actual: int)
    requires ValidParams(p) && |u| == |b| == p.nbClients + 1 && 1 <= x <= p.nbClients
    requires RouteIds(p, RepairStations(plan)) && |plan| >= 2
    ensures !inserted ==> plan' == plan && u' == u && b' == b && extra' == extra && actual == 0
    ensures inserted ==>
      && 1 <= idx < |plan| && |plan'| == |plan| + 1 && RepairStations(plan') == InsertAt(RepairStations(plan), idx, x)
      && u' == u[x := u[x] + actual] && b' == b[x := b[x] - actual]
      && 0 <= actual && (b[x] >= 0 ==> actual <= b[x]) && (b[x] < 0 ==> actual == 0)
      && inst.dissat(x, u'[x], b'[x]) <= inst.dissat(x, u[x], b[x])
      && extra' >= 0.0
    ensures RouteIds(p, RepairStations(plan')) && plan'[0] == plan[0] && plan'[|plan'| - 1] == plan[|plan| - 1]
    ensures Shifted(plan, plan', x, actual)
    ensures extra' == p.timeBudget - ScheduleTime(p, inst, plan') <== extra == p.timeBudget - ScheduleTime(p, inst, plan)
  {
    var cost;
    idx, cost := CheapestInsertion(inst, RepairStations(plan), x);
    if extra - cost > p.repairTime as real {
      plan', u', b', extra', actual := InsertAndRepair(p, inst, plan, u, b, extra, x, idx, cost);
      inserted := true;
    } else {
      plan', u', b', extra', inserted, actual := plan, u, b, extra, false, 0;
    }
  }

  /** Inserting x before entry idx at the given cost and repairing there (Utils.cpp:609-636). */
  method InsertAndRepair(p: Params, inst: Instance, plan: seq<RepairEntry>, u: seq<int>, b: seq<int>, extra: real,
                         x: int, idx: int, cost: real)
    returns (plan': seq<RepairEntry>, u': seq<int>, b': seq<int>, extra': real, actual: int)
    requires ValidParams(p) && |u| == |b| == p.nbClients + 1 && 1 <= x <= p.nbClients
    requires RouteIds(p, RepairStations(plan)) && 1 <= idx < |plan|
    requires cost == InsertionCost(inst, RepairStations(plan), idx, x) && extra - cost > p.repairTime as real
    ensures |plan'| == |plan| + 1 && RepairStations(plan') == InsertAt(RepairStations(plan), idx, x)
    ensures u' == u[x := u[x] + actual] && b' == b[x := b[x] - actual]
    ensures 0 <= actual && (b[x] >= 0 ==> actual <= b[x]) && (b[x] < 0 ==> actual == 0)
    ensures inst.dissat(x, u'[x], b'[x]) <= inst.dissat(x, u[x], b[x])
    ensures plan'[0] == plan[0] && plan'[|plan'| - 1] == plan[|plan| - 1]
    ensures Shifted(plan, plan', x, actual)
    ensures ScheduleTime(p, inst, plan') == ScheduleTime(p, inst, plan) + cost + RepairTime(p, actual)
    ensures extra' == extra - cost - RepairTime(p, actual) && extra' >= 0.0
    ensures RouteIds(p, RepairStations(plan'))
    ensures extra' == p.timeBudget - ScheduleTime(p, inst, plan') <== extra == p.timeBudget - ScheduleTime(p, inst, plan)
  {
    var plan1 := InsertEntry(plan, idx, RepairEntry(x, 0.0, 0));
    InsertFacts(p, inst, plan, idx, x);
    assert plan1[0] == plan[0] && plan1[|plan|] == plan[|plan| - 1];
    plan', u', b', extra', actual := RepairMore(p, inst, plan1, u, b, extra - cost, idx, x);
    assert plan'[0] == plan1[0] && plan'[|plan|] == plan1[|plan|];
    ShiftedTrans(plan, plan1, plan', x, 0, actual);
    InsertIds(p, RepairStations(plan), idx, x);
  }

  /** Inserting an entry for x with no repairs adds the insertion cost to the time and no repairs. */
  lemma InsertFacts(p: Params, inst: Instance, plan: seq<RepairEntry>, idx: int, x: int)
    requires ValidParams(p) && RouteIds(p, RepairStations(plan)) && 1 <= idx < |plan| && 0 <= x <= p.nbClients
    ensures var plan1 := InsertEntry(plan, idx, RepairEntry(x, 0.0, 0));
      && RepairStations(plan1) == InsertAt(RepairStations(plan), idx, x) && RouteIds(p, RepairStations(plan1))
      && Shifted(plan, plan1, x, 0)
      && ScheduleTime(p, inst, plan1) == ScheduleTime(p, inst, plan) + InsertionCost(inst, RepairStations(plan), idx, x)
  {
    var e := RepairEntry(x, 0.0, 0);
    var plan1 := InsertEntry(plan, idx, e);
    forall t ensures RepairedAt(plan1, t) == RepairedAt(plan, t) {
      RepairsInsert(plan, idx, e, t);
    }
    RepairsInsert(plan, idx, e, 0);
    StationsInsert(plan, idx, e);
    InsertIds(p, RepairStations(plan), idx, x);
    InsertTime(p, inst, plan, idx, e);
  }

  /** Inserting a station id keeps a route of station ids. */
  lemma InsertIds(p: Params, st: seq<int>, idx: int, x: int)
    requires RouteIds(p, st) && 0 <= idx <= |st| && 0 <= x <= p.nbClients
    ensures RouteIds(p, InsertAt(st, idx, x))
  {
    var st1 := InsertAt(st, idx, x);
    forall k | 0 <= k < |st1| ensures IsStation(p, st1[k]) {
      if k > idx {
        assert st1[k] == st[k - 1];
      } else if k < idx {
        assert st1[k] == st[k];
      }
    }
  }

  /** Inserting an entry without repairs between two entries adds the insertion cost to the schedule's time. */
  lemma InsertTime(p: Params, inst: Instance, plan: seq<RepairEntry>, idx: int, e: RepairEntry)
    requires ValidParams(p) && 1 <= idx < |plan| && e.repair == 0
    ensures ScheduleTime(p, inst, InsertEntry(plan, idx, e)) ==
      ScheduleTime(p, inst, plan) + InsertionCost(inst, RepairStations(plan), idx, e.station)
  {
    var plan1 := InsertEntry(plan, idx, e);
    RepairsInsert(plan, idx, e, 0);
    StationsInsert(plan, idx, e);
    var st, st1 := RepairStations(plan), RepairStations(plan1);
    TravelInsert(inst, st, idx, e.station);
    var leg := LegTime(inst, true);
    assert Travel(st1, leg) == Travel(st, leg) + InsertionCost(inst, st, idx, e.station);
    assert Work(plan1) == Work(plan);
  }

  /** Extending a schedule prefix by one entry adds one leg and that entry's repairs to its time. */
  lemma ScheduleTimeExtend(p: Params, inst: Instance, plan: seq<RepairEntry>, i: int)
    requires ValidParams(p) && 1 <= i < |plan|
    ensures ScheduleTime(p, inst, plan[..i + 1]) ==
      ScheduleTime(p, inst, plan[..i]) + inst.dist(plan[i - 1].station, plan[i].station) * 1.68 + RepairTime(p, plan[i].repair)
  {
    var a, c := plan[..i], plan[..i + 1];
    assert c[..i] == a;
    var sa, sc := RepairStations(a), RepairStations(c);
    assert sc[..i] == sa;
    assert RepairSum(c) == RepairSum(a) + plan[i].repair;
    assert Work(c) == Work(a) + plan[i].repair;
    RepairTimeAdd(p, Work(a), plan[i].repair);
  }

  /**
   * The first pass over the schedule (Utils.cpp:525-537): the time it takes
   * and, in schedule order, the stations after the first entry worth a repair.
   */
  method ScanSchedule(p: Params, inst: Instance, plan: seq<RepairEntry>, u: seq<int>, b: seq<int>)
    returns (total: real, cands: seq<Candidate>)
    requires ValidParams(p) && |u| == |b| == p.nbClients + 1
    requires RouteIds(p, RepairStations(plan)) && |plan| >= 1
    ensures total == ScheduleTime(p, inst, plan)
    ensures cands == InRoute(inst, u, b, RepairStations(plan)[1..])
  {
    total, cands := 0.0, [];
    var i := 1;
    assert plan[..1] == [plan[0]];
    assert RepairSum([plan[0]]) == plan[0].repair by { assert [plan[0]][..0] == []; }
    while i < |plan|
      invariant 1 <= i <= |plan|
      invariant total == ScheduleTime(p, inst, plan[..i])
      invariant cands == InRoute(inst, u, b, RepairStations(plan)[1..i])
    {
      var s := plan[i].station;
      assert IsStation(p, RepairStations(plan)[i]);
      ScheduleTimeExtend(p, inst, plan, i);
      total := total + inst.dist(plan[i - 1].station, s) * 1.68 + RepairTime(p, plan[i].repair);
      ghost var front := RepairStations(plan)[1..i];
      assert RepairStations(plan)[1..i + 1] == front + [s];
      assert (front + [s])[..|front|] == front;
      if s != 0 && b[s] > 0 {
        var gain := Gain(inst, u, b, s);
        if gain > 0.0 {
          cands := cands + [Candidate(s, gain)];
        }
      }
      i := i + 1;
    }
    assert plan[..i] == plan;
    assert RepairStations(plan)[1..i] == RepairStations(plan)[1..];
  }

  /** The second pass (Utils.cpp:576-588): stations 1..n outside `visited` worth a repair, in station order. */
  method ScanRepairable(p: Params, inst: Instance, u: seq<int>, b: seq<int>, visited: set<int>)
    returns (cands: seq<Candidate>)
    requires |u| == |b| == p.nbClients + 1 && p.nbClients >= 0
    ensures cands == Repairable(inst, u, b, visited, p.nbClients)
  {
    cands := [];
    var i := 1;
    while i <= p.nbClients
      invariant 1 <= i <= p.nbClients + 1
      invariant cands == Repairable(inst, u, b, visited, i - 1)
    {
      var tail: seq<Candidate> := [];
      if b[i] > 0 && i !in visited {
        var gain := Gain(inst, u, b, i);
        if gain > 0.0 {
          tail := [Candidate(i, gain)];
        }
      }
      assert cands + tail == Repairable(inst, u, b, visited, i) by {
        RepairableStep(inst, u, b, visited, i);
      }
      cands := cands + tail;
      i := i + 1;
    }
  }

  lemma RepairableStep(inst: Instance, u: seq<int>, b: seq<int>, visited: set<int>, n: int)
    requires 0 < n < |u| && n < |b|
    ensures Repairable(inst, u, b, visited, n) ==
      Repairable(inst, u, b, visited, n - 1) + if n !in visited && Worth(inst, u, b, n) then [Candidate(n, Gain(inst, u, b, n))] else []
  {
  }

  /**
   * What the amendment keeps of the schedule it started from: both ends'
   * stations, every station id, and every station's entries; the stations it
   * adds are neither the depot nor stations in `visited`.
   */
  ghost predicate StationsGrow(p: Params, visited: set<int>, plan0: seq<RepairEntry>, plan: seq<RepairEntry>) {
    && |plan0| >= 2 && |plan| >= 2
    && plan[0] == plan0[0] && plan[|plan| - 1].station == plan0[|plan0| - 1].station
    && RouteIds(p, RepairStations(plan))
    && multiset(RepairStations(plan0)) <= multiset(RepairStations(plan))
    && forall s :: s in visited || s == 0 ==> multiset(RepairStations(plan))[s] == multiset(RepairStations(plan0))[s]
  }

  /**
   * The stock follows the repairs the amendment adds: each one turns a
   * broken bike of its station into a usable one, never more than the
   * station's broken bikes, never at the depot, and no station ends up more
   * dissatisfied than it started.
   */
  ghost predicate StockFollows(p: Params, inst: Instance, plan0: seq<RepairEntry>, u0: seq<int>, b0: seq<int>,
                               plan: seq<RepairEntry>, u: seq<int>, b: seq<int>) {
    && |u0| == |b0| == |u| == |b| == p.nbClients + 1
    && RepairedAt(plan, 0) == RepairedAt(plan0, 0)
    && forall s :: 0 <= s <= p.nbClients ==>
         && RepairedAt(plan0, s) <= RepairedAt(plan, s)
         && u[s] == u0[s] + (RepairedAt(plan, s) - RepairedAt(plan0, s))
         && b[s] == b0[s] - (RepairedAt(plan, s) - RepairedAt(plan0, s))
         && (b0[s] >= 0 ==> b[s] >= 0)
         && inst.dissat(s, u[s], b[s]) <= inst.dissat(s, u0[s], b0[s])
  }

  /** A schedule keeps what it started from. */
  lemma StationsSame(p: Params, visited: set<int>, plan: seq<RepairEntry>, plan': seq<RepairEntry>)
    requires |plan| >= 2 && RouteIds(p, RepairStations(plan))
    requires RepairStations(plan') == RepairStations(plan) && plan'[0] == plan[0]
    ensures StationsGrow(p, visited, plan, plan')
  {
    assert |plan'| == |RepairStations(plan')|;
    assert plan'[|plan'| - 1].station == RepairStations(plan')[|plan'| - 1];
  }

  /** Inserting a station that is neither the depot nor in `visited` keeps the schedule growing. */
  lemma StationsInsertStep(p: Params, visited: set<int>, plan0: seq<RepairEntry>, plan: seq<RepairEntry>,
                           plan': seq<RepairEntry>, idx: int, x: int)
    requires StationsGrow(p, visited, plan0, plan) && 1 <= idx < |plan| && x != 0 && x !in visited
    requires RepairStations(plan') == InsertAt(RepairStations(plan), idx, x) && RouteIds(p, RepairStations(plan'))
    requires plan'[0] == plan[0] && plan'[|plan'| - 1] == plan[|plan| - 1]
    ensures StationsGrow(p, visited, plan0, plan')
  {
    var m0, m, m' := multiset(RepairStations(plan0)), multiset(RepairStations(plan)), multiset(RepairStations(plan'));
    assert m' == m + multiset{x};
    forall s | s in visited || s == 0 ensures m'[s] == m0[s] {
      assert m'[s] == m[s];
    }
  }

  /** The stock follows the repairs over two stretches of the amendment if it does over each. */
  lemma StockTrans(p: Params, inst: Instance, plan0: seq<RepairEntry>, u0: seq<int>, b0: seq<int>,
                   plan1: seq<RepairEntry>, u1: seq<int>, b1: seq<int>, plan: seq<RepairEntry>, u: seq<int>, b: seq<int>)
    requires StockFollows(p, inst, plan0, u0, b0, plan1, u1, b1) && StockFollows(p, inst, plan1, u1, b1, plan, u, b)
    ensures StockFollows(p, inst, plan0, u0, b0, plan, u, b)
  {
    forall s | 0 <= s <= p.nbClients
      ensures RepairedAt(plan0, s) <= RepairedAt(plan, s)
      ensures u[s] == u0[s] + (RepairedAt(plan, s) - RepairedAt(plan0, s))
      ensures b[s] == b0[s] - (RepairedAt(plan, s) - RepairedAt(plan0, s))
      ensures b0[s] >= 0 ==> b[s] >= 0
      ensures inst.dissat(s, u[s], b[s]) <= inst.dissat(s, u0[s], b0[s])
    {
    }
  }

  /** One round of repairs at station x, no more than its broken bikes and not raising its dissatisfaction, keeps the stock following the repairs. */
  lemma StockStep(p: Params, inst: Instance, plan0: seq<RepairEntry>, u0: seq<int>, b0: seq<int>,
                  plan: seq<RepairEntry>, u: seq<int>, b: seq<int>, plan': seq<RepairEntry>, x: int, actual: int)
    requires StockFollows(p, inst, plan0, u0, b0, plan, u, b) && 1 <= x <= p.nbClients
    requires Shifted(plan, plan', x, actual) && 0 <= actual && (b[x] >= 0 ==> actual <= b[x])
    requires inst.dissat(x, u[x] + actual, b[x] - actual) <= inst.dissat(x, u[x], b[x])
    ensures StockFollows(p, inst, plan0, u0, b0, plan', u[x := u[x] + actual], b[x := b[x] - actual])
  {
    var u', b' := u[x := u[x] + actual], b[x := b[x] - actual];
    assert RepairedAt(plan', 0) == RepairedAt(plan, 0);
    forall s | 0 <= s <= p.nbClients
      ensures RepairedAt(plan0, s) <= RepairedAt(plan', s)
      ensures u'[s] == u0[s] + (RepairedAt(plan', s) - RepairedAt(plan0, s))
      ensures b'[s] == b0[s] - (RepairedAt(plan', s) - RepairedAt(plan0, s))
      ensures b0[s] >= 0 ==> b'[s] >= 0
      ensures inst.dissat(s, u'[s], b'[s]) <= inst.dissat(s, u0[s], b0[s])
    {
      assert RepairedAt(plan', s) == RepairedAt(plan, s) + (if s == x then actual else 0);
    }
  }

  /** Nothing changed: the stock trivially follows the repairs. */
  lemma StockSame(p: Params, inst: Instance, plan: seq<RepairEntry>, u: seq<int>, b: seq<int>)
    requires |u| == |b| == p.nbClients + 1
    ensures StockFollows(p, inst, plan, u, b, plan, u, b)
  {
  }

  /** The first entry from `from` on at station s, or |stations| if there is none: std::find_if (Utils.cpp:542-543). */
  function FindFrom(stations: seq<int>, s: int, from: int): (r: int)
    requires 0 <= from <= |stations|
    ensures from <= r <= |stations| && (r < |stations| ==> stations[r] == s)
    ensures forall j :: from <= j < r ==> stations[j] != s
    decreases |stations| - from
  {
    if from == |stations| || stations[from] == s then from else FindFrom(stations, s, from + 1)
  }

  /**
   * The first round (Utils.cpp:539-563): while time is left, the next
   * candidate, best gain first, gets the best number of repairs at its
   * first entry after the start.
   */
  method RepairRound(p: Params, inst: Instance, plan: seq<RepairEntry>, u: seq<int>, b: seq<int>, extra: real,
                     cands: seq<Candidate>)
    returns (plan': seq<RepairEntry>, u': seq<int>, b': seq<int>, extra': real)
    requires ValidParams(p) && |u| == |b| == p.nbClients + 1 && |plan| >= 2
    requires forall k :: 0 <= k < |cands| ==> 1 <= cands[k].station <= p.nbClients
    ensures RepairStations(plan') == RepairStations(plan) && plan'[0] == plan[0]
    ensures StockFollows(p, inst, plan, u, b, plan', u', b')
    ensures extra' == p.timeBudget - ScheduleTime(p, inst, plan') <== extra == p.timeBudget - ScheduleTime(p, inst, plan)
    ensures extra >= 0.0 ==> extra' >= 0.0
    ensures extra <= 0.0 ==> plan' == plan && u' == u && b' == b && extra' == extra
  {
    plan', u', b', extra' := plan, u, b, extra;
    StockSame(p, inst, plan, u, b);
    var i := 0;
    while extra' > 0.0 && i < |cands|
      invariant 0 <= i <= |cands| && |plan'| == |plan|
      invariant RepairStations(plan') == RepairStations(plan) && plan'[0] == plan[0]
      invariant StockFollows(p, inst, plan, u, b, plan', u', b')
      invariant extra == p.timeBudget - ScheduleTime(p, inst, plan) ==> extra' == p.timeBudget - ScheduleTime(p, inst, plan')
      invariant extra >= 0.0 ==> extra' >= 0.0
      invariant extra <= 0.0 ==> plan' == plan && u' == u && b' == b && extra' == extra
    {
      var s := cands[i].station;
      var k := FindFrom(RepairStations(plan'), s, 1);
      if k < |plan'| {
        var plan1, u1, b1, extra1, actual := RepairMore(p, inst, plan', u', b', extra', k, s);
        StockStep(p, inst, plan, u, b, plan', u', b', plan1, s, actual);
        plan', u', b', extra' := plan1, u1, b1, extra1;
      }
      i := i + 1;
    }
  }

  /**
   * The second round (Utils.cpp:590-638): while more than one repair's time
   * is left, the next candidate, best gain first, is inserted where it
   * lengthens the tour least and repaired at, when the time left then still
   * exceeds one repair.
   */
  method InsertRound(p: Params, inst: Instance, plan: seq<RepairEntry>, u: seq<int>, b: seq<int>, extra: real,
                     cands: seq<Candidate>, visited: set<int>)
    returns (plan': seq<RepairEntry>, u': seq<int>, b': seq<int>, extra': real)
    requires ValidParams(p) && |u| == |b| == p.nbClients + 1 && |plan| >= 2 && RouteIds(p, RepairStations(plan))
    requires forall k :: 0 <= k < |cands| ==> 1 <= cands[k].station <= p.nbClients && cands[k].station !in visited
    ensures StationsGrow(p, visited, plan, plan')
    ensures StockFollows(p, inst, plan, u, b, plan', u', b')
    ensures extra' == p.timeBudget - ScheduleTime(p, inst, plan') <== extra == p.timeBudget - ScheduleTime(p, inst, plan)
    ensures extra >= 0.0 ==> extra' >= 0.0
    ensures extra <= p.repairTime as real ==> plan' == plan && u' == u && b' == b && extra' == extra
  {
    plan', u', b', extra' := plan, u, b, extra;
    StockSame(p, inst, plan, u, b);
    StationsSame(p, visited, plan, plan);
    var i := 0;
    while extra' > p.repairTime as real && i < |cands|
      invariant 0 <= i <= |cands|
      invariant StationsGrow(p, visited, plan, plan')
      invariant StockFollows(p, inst, plan, u, b, plan', u', b')
      invariant extra == p.timeBudget - ScheduleTime(p, inst, plan) ==> extra' == p.timeBudget - ScheduleTime(p, inst, plan')
      invariant extra >= 0.0 ==> extra' >= 0.0
      invariant extra <= p.repairTime as real ==> plan' == plan && u' == u && b' == b && extra' == extra
      decreases |cands| - i
    {
      plan', u', b', extra' := InsertNext(p, inst, plan, u, b, visited, plan', u', b', extra', cands[i].station);
      i := i + 1;
    }
  }

  /** One pass of the second round: InsertStation on the schedule reached so far keeps what the round promises. */
  method InsertNext(p: Params, inst: Instance, plan0: seq<RepairEntry>, u0: seq<int>, b0: seq<int>, visited: set<int>,
                    plan: seq<RepairEntry>, u: seq<int>, b: seq<int>, extra: real, x: int)
    returns (plan': seq<RepairEntry>, u': seq<int>, b': seq<int>, extra': real)
    requires ValidParams(p) && 1 <= x <= p.nbClients && x !in visited
    requires StationsGrow(p, visited, plan0, plan) && StockFollows(p, inst, plan0, u0, b0, plan, u, b)
    ensures StationsGrow(p, visited, plan0, plan') && StockFollows(p, inst, plan0, u0, b0, plan', u', b')
    ensures extra' == p.timeBudget - ScheduleTime(p, inst, plan') <== extra == p.timeBudget - ScheduleTime(p, inst, plan)
    ensures extra >= 0.0 ==> extra' >= 0.0
  {
    var inserted, idx, actual;
    plan', u', b', extra', inserted, idx, actual := InsertStation(p, inst, plan, u, b, extra, x);
    if inserted {
      StationsInsertStep(p, visited, plan0, plan, plan', idx, x);
      StockStep(p, inst, plan0, u0, b0, plan, u, b, plan', x, actual);
    }
  }

  /**
   * repairmanSchemeAmendment (Utils.cpp:522-639): spends the time a
   * repairman has left, first on more repairs at the stations of the
   * schedule, then on stations outside `visited` (in the program, every
   * station some repairman visits).
   */
  method RepairmanSchemeAmendment(p: Params, inst: Instance, plan: seq<RepairEntry>, u: seq<int>, b: seq<int>,
                                  visited: set<int>)
    returns (plan': seq<RepairEntry>, u': seq<int>, b': seq<int>)
    requires ValidParams(p) && |u| == |b| == p.nbClients + 1 && |plan| >= 2 && RouteIds(p, RepairStations(plan))
    ensures StationsGrow(p, visited, plan, plan')
    ensures StockFollows(p, inst, plan, u, b, plan', u', b')
    ensures ScheduleTime(p, inst, plan) <= p.timeBudget ==> ScheduleTime(p, inst, plan') <= p.timeBudget
    ensures ScheduleTime(p, inst, plan) >= p.timeBudget ==> plan' == plan && u' == u && b' == b
  {
    var total, inRoute := ScanSchedule(p, inst, plan, u, b);
    var extra := p.timeBudget - total;
    var first := SortBy(inRoute, NegGain);
    CandidatesInRange(p, inst, u, b, RepairStations(plan)[1..], inRoute, first);
    var plan1, u1, b1, extra1 := RepairRound(p, inst, plan, u, b, extra, first);
    StationsSame(p, visited, plan, plan1);
    var outside := ScanRepairable(p, inst, u1, b1, visited);
    RepairableMembers(inst, u1, b1, visited, p.nbClients);
    var second := SortBy(outside, NegGain);
    assert forall k :: 0 <= k < |second| ==> second[k] in multiset(outside);
    var extra2;
    plan', u', b', extra2 := InsertRound(p, inst, plan1, u1, b1, extra1, second, visited);
    StockTrans(p, inst, plan, u, b, plan1, u1, b1, plan', u', b');
    StationsTrans(p, visited, plan, plan1, plan');
  }

  /** Sorting the stations of the schedule worth a repair keeps them station ids other than the depot. */
  lemma CandidatesInRange(p: Params, inst: Instance, u: seq<int>, b: seq<int>, stations: seq<int>,
                          cands: seq<Candidate>, sorted: seq<Candidate>)
    requires |u| == |b| == p.nbClients + 1 && RouteIds(p, stations)
    requires cands == InRoute(inst, u, b, stations) && multiset(sorted) == multiset(cands)
    ensures forall k :: 0 <= k < |sorted| ==> 1 <= sorted[k].station <= p.nbClients
  {
    forall k | 0 <= k < |sorted| ensures 1 <= sorted[k].station <= p.nbClients {
      assert sorted[k] in multiset(cands);
      var j :| 0 <= j < |stations| && stations[j] == sorted[k].station;
      assert IsStation(p, stations[j]);
    }
  }

  /** A schedule that keeps what a kept schedule started from keeps it too. */
  lemma StationsTrans(p: Params, visited: set<int>, plan0: seq<RepairEntry>, plan1: seq<RepairEntry>, plan: seq<RepairEntry>)
    requires StationsGrow(p, visited, plan0, plan1) && StationsGrow(p, visited, plan1, plan)
    ensures StationsGrow(p, visited, plan0, plan)
  {
  }

  /** The amendment keeps every station's stock within [0, capacity] and its bikes in number. */
  lemma AmendmentKeepsInventory(p: Params, inst: Instance, plan0: seq<RepairEntry>, u0: seq<int>, b0: seq<int>,
                                plan: seq<RepairEntry>, u: seq<int>, b: seq<int>)
    requires |inst.networkInfo| == p.nbClients + 1 && InventoryOk(inst, p, u0, b0)
    requires StockFollows(p, inst, plan0, u0, b0, plan, u, b)
    ensures InventoryOk(inst, p, u, b)
    ensures forall s :: 0 <= s <= p.nbClients ==> u[s] + b[s] == u0[s] + b0[s] && u0[s] <= u[s]
  {
  }
}
