/*
 * The truck schedule amendment (helpers/Utils.cpp: truckSchemeAmendment).
 * Once every vehicle has a schedule, the time a truck has left is spent on
 * the stations of its schedule that are still off balance, in schedule
 * order: a station with usable bikes above its target hands them, entry by
 * entry, to the stations further on that are below target (or to a depot),
 * as far as the truck's room, the surplus and the time allow; a station
 * with broken bikes has them carried to the next depot.
 *
 * The schedule and the stock are passed by reference in the program; here
 * they are returned.
 */
module TruckAmendment {
  import opened Instances
  import opened Schemes
  import opened TimeHelper
  import opened TimeAllotment
  import opened TruckAssignment

  /** The time of n loading or unloading operations. */
  function OpTime(p: Params, n: int): (t: real)
    requires ValidParams(p)
    ensures n >= 0 ==> t >= 0.0
  {
    Times(n, p.loadingTime) as real
  }

  /** Operation times add up. */
  lemma OpTimeAdd(p: Params, a: int, b: int)
    requires ValidParams(p)
    ensures OpTime(p, a + b) == OpTime(p, a) + OpTime(p, b)
  {
    TimesIsProduct(a + b, p.loadingTime);
    TimesIsProduct(a, p.loadingTime);
    TimesIsProduct(b, p.loadingTime);
    assert (a + b) * p.loadingTime == a * p.loadingTime + b * p.loadingTime;
  }

  /** The loading and unloading operations of an entry. */
  function Ops(e: TruckEntry): int {
    e.loadU + e.loadB + e.unloadU + e.unloadB
  }

  function OpsOf(): TruckEntry -> int {
    (e: TruckEntry) => Ops(e)
  }

  /**
   * The time the truck's schedule takes (Utils.cpp:651-659): the legs at
   * their distance, plus loadingTime for every bike loaded or unloaded,
   * the first entry's included.
   */
  function TruckTime(p: Params, inst: Instance, plan: seq<TruckEntry>): real
    requires ValidParams(p)
  {
    Travel(StationsOf(plan), LegTime(inst, false)) + OpTime(p, Tally(plan, OpsOf()))
  }

  /**
   * Entry k is consistent and within capacity: quantities are non-negative,
   * the load leaving is the load arriving plus what was loaded minus what
   * was unloaded, and the truck is never over capacity.
   */
  predicate CarriedAt(plan: seq<TruckEntry>, k: int, cap: int)
    requires 0 <= k < |plan|
  {
    var e := plan[k];
    && e.loadU >= 0 && e.loadB >= 0 && e.unloadU >= 0 && e.unloadB >= 0
    && e.truckUQ == ArrivingUQ(plan, k) + e.loadU - e.unloadU
    && e.truckBQ == ArrivingBQ(plan, k) + e.loadB - e.unloadB
    && 0 <= e.truckUQ && 0 <= e.truckBQ && e.truckUQ + e.truckBQ <= cap
  }

  predicate Carried(plan: seq<TruckEntry>, cap: int) {
    forall k :: 0 <= k < |plan| ==> CarriedAt(plan, k, cap)
  }

  /** A schedule the truck compiler produces is consistent and within capacity. */
  lemma CompiledIsCarried(plan: seq<TruckEntry>, cap: int)
    requires PlanOk(plan, cap)
    ensures Carried(plan, cap)
  {
    forall k | 0 <= k < |plan| ensures CarriedAt(plan, k, cap) {
      assert EntryOk(plan, k, cap);
    }
  }

  /**
   * Entry k after `a` bikes, usable or broken, are loaded at entry `from`
   * and carried to entry `to` to be unloaded there (Utils.cpp:695-698,
   * 723-726).
   */
  function Moved(plan: seq<TruckEntry>, k: int, from: int, to: int, a: int, broken: bool): TruckEntry
    requires 0 <= k < |plan|
  {
    var e := plan[k];
    var loaded := if k != from then e else if broken then e.(loadB := e.loadB + a) else e.(loadU := e.loadU + a);
    var unloaded := if k != to then loaded
      else if broken then loaded.(unloadB := loaded.unloadB + a) else loaded.(unloadU := loaded.unloadU + a);
    if !(from <= k < to) then unloaded
    else if broken then unloaded.(truckBQ := unloaded.truckBQ + a) else unloaded.(truckUQ := unloaded.truckUQ + a)
  }

  function Move(plan: seq<TruckEntry>, from: int, to: int, a: int, broken: bool): (r: seq<TruckEntry>)
    ensures |r| == |plan| && forall k :: 0 <= k < |plan| ==> r[k] == Moved(plan, k, from, to, a, broken)
  {
    seq(|plan|, k requires 0 <= k < |plan| => Moved(plan, k, from, to, a, broken))
  }

  /** Loads `a` bikes at entry `from`, unloads them at entry `to` and carries them in between (Utils.cpp:695-698, 723-726). */
  method MoveBikes(plan: seq<TruckEntry>, from: int, to: int, a: int, broken: bool) returns (r: seq<TruckEntry>)
    requires 0 <= from <= to < |plan|
    ensures r == Move(plan, from, to, a, broken)
  {
    r := plan;
    if broken {
      r := r[from := r[from].(loadB := r[from].loadB + a)];
      r := r[to := r[to].(unloadB := r[to].unloadB + a)];
    } else {
      r := r[from := r[from].(loadU := r[from].loadU + a)];
      r := r[to := r[to].(unloadU := r[to].unloadU + a)];
    }
    var i := from;
    while i < to
      invariant from <= i <= to && |r| == |plan|
      invariant forall k :: 0 <= k < |plan| && !(from <= k < i) ==>
        r[k] == Moved(plan, k, from, to, a, broken).(truckUQ := plan[k].truckUQ, truckBQ := plan[k].truckBQ)
      invariant forall k :: from <= k < i ==> r[k] == Moved(plan, k, from, to, a, broken)
    {
      if broken {
        r := r[i := r[i].(truckBQ := r[i].truckBQ + a)];
      } else {
        r := r[i := r[i].(truckUQ := r[i].truckUQ + a)];
      }
      i := i + 1;
    }
  }

  /** Moving a non-negative number of bikes that fits the room of every entry they are carried past keeps a schedule consistent and within capacity. */
  lemma MoveCarried(plan: seq<TruckEntry>, from: int, to: int, a: int, broken: bool, cap: int)
    requires Carried(plan, cap) && 0 <= from <= to < |plan| && 0 <= a
    requires forall k :: from <= k < to ==> a <= Room(plan, k, cap)
    ensures Carried(Move(plan, from, to, a, broken), cap)
  {
    var r := Move(plan, from, to, a, broken);
    forall k | 0 <= k < |r| ensures CarriedAt(r, k, cap) {
      assert CarriedAt(plan, k, cap);
      if k > 0 {
        assert r[k - 1] == Moved(plan, k - 1, from, to, a, broken);
      }
      if from <= k < to {
        assert a <= Room(plan, k, cap);
      }
    }
  }

  /** Moving bikes keeps the stations and adds two operations per bike to the schedule's time. */
  lemma MoveTime(p: Params, inst: Instance, plan: seq<TruckEntry>, from: int, to: int, a: int, broken: bool)
    requires ValidParams(p) && 0 <= from <= to < |plan|
    ensures StationsOf(Move(plan, from, to, a, broken)) == StationsOf(plan)
    ensures TruckTime(p, inst, Move(plan, from, to, a, broken)) == TruckTime(p, inst, plan) + OpTime(p, 2 * a)
  {
    var r := Move(plan, from, to, a, broken);
    assert StationsOf(r) == StationsOf(plan);
    TallyDiff(plan, r, OpsOf(), from, to);
    OpTimeAdd(p, Tally(plan, OpsOf()), 2 * a);
  }

  /** Moving bikes loads them at the station of entry `from` and nowhere else. */
  lemma MoveLoads(plan: seq<TruckEntry>, from: int, to: int, a: int, broken: bool, s: int)
    requires 0 <= from <= to < |plan|
    ensures Tally(Move(plan, from, to, a, broken), LoadedUAt(s)) ==
      Tally(plan, LoadedUAt(s)) + (if !broken && plan[from].station == s then a else 0)
    ensures Tally(Move(plan, from, to, a, broken), LoadedBAt(s)) ==
      Tally(plan, LoadedBAt(s)) + (if broken && plan[from].station == s then a else 0)
  {
    var r := Move(plan, from, to, a, broken);
    TallyDiff(plan, r, LoadedUAt(s), from, to);
    TallyDiff(plan, r, LoadedBAt(s), from, to);
  }

  /** Schedule q loads `a` more bikes at station s0 than schedule r, usable or broken, and the same everywhere else. */
  ghost predicate LoadsShifted(r: seq<TruckEntry>, q: seq<TruckEntry>, s0: int, a: int, broken: bool) {
    forall s ::
      && Tally(q, LoadedUAt(s)) == Tally(r, LoadedUAt(s)) + (if !broken && s == s0 then a else 0)
      && Tally(q, LoadedBAt(s)) == Tally(r, LoadedBAt(s)) + (if broken && s == s0 then a else 0)
  }

  /** Moving bikes shifts the loads of the loading station only. */
  lemma MoveShifts(plan: seq<TruckEntry>, from: int, to: int, a: int, broken: bool)
    requires 0 <= from <= to < |plan|
    ensures LoadsShifted(plan, Move(plan, from, to, a, broken), plan[from].station, a, broken)
  {
    forall s {
      MoveLoads(plan, from, to, a, broken, s);
    }
  }

  /** Shifts of the loads at one station add up. */
  lemma ShiftsAdd(r: seq<TruckEntry>, q: seq<TruckEntry>, o: seq<TruckEntry>, s0: int, a: int, c: int, broken: bool)
    requires LoadsShifted(r, q, s0, a, broken) && LoadsShifted(q, o, s0, c, broken)
    ensures LoadsShifted(r, o, s0, a + c, broken)
  {
  }

  /** A move no larger than the smallest room over a stretch keeps the schedule carried and leaves that much less room. */
  lemma MoveRooms(plan: seq<TruckEntry>, from: int, to: int, upto: int, a: int, m: int, cap: int)
    requires Carried(plan, cap) && 0 <= from <= to <= upto < |plan| && 0 <= a <= m
    requires forall k :: from <= k <= upto ==> m <= Room(plan, k, cap)
    ensures Carried(Move(plan, from, to, a, false), cap)
    ensures forall k :: from <= k <= upto ==> m - a <= Room(Move(plan, from, to, a, false), k, cap)
  {
    MoveCarried(plan, from, to, a, false, cap);
    var r := Move(plan, from, to, a, false);
    forall k | from <= k <= upto ensures m - a <= Room(r, k, cap) {
      assert r[k] == Moved(plan, k, from, to, a, false);
      assert m <= Room(plan, k, cap);
    }
  }

  /**
   * The bikes to move given a bound from the stock and the truck's room
   * (Utils.cpp:691-693, 721-722): no more than the bound and no more than
   * the time left allows, which is as many as the bound or as the time
   * allows.
   */
  method FitLoad(p: Params, bound: int, extra: real) returns (a: int)
    requires ValidParams(p) && extra >= 0.0
    ensures a <= bound && OpTime(p, 2 * a) <= extra
    ensures bound >= 0 ==> a >= 0
    ensures a == bound || extra - OpTime(p, 2 * a) < OpTime(p, 2)
  {
    var byTime := MaxLoadQByTime(p.loadingTime, extra);
    MaxLoadQNonNegative(p.loadingTime, extra);
    a := Min(bound, byTime);
    TimesIsProduct(2 * a, p.loadingTime);
    TimesIsProduct(2 * (a + 1), p.loadingTime);
    if a >= 0 {
      LoadTimeFits(p.loadingTime, extra, a);
    }
    if a == byTime {
      assert 2.0 * (a + 1) as real * p.loadingTime as real == (2 * (a + 1) * p.loadingTime) as real;
    }
    OpTimeAdd(p, 2 * a, 2);
    assert 2 * (a + 1) == 2 * a + 2;
  }

  /**
   * The bookkeeping of a schedule q, stock v and spare time x reached from
   * plan, stock w and extra by loading bikes (usable, or broken when
   * `broken`) at station cur only: the stations are the same, cur lost
   * exactly the bikes loaded there and the time spent on them came out of
   * the spare time.
   */
  ghost predicate Shipped(p: Params, inst: Instance, plan: seq<TruckEntry>, w: seq<int>, extra: real, cur: int, broken: bool,
                          q: seq<TruckEntry>, v: seq<int>, x: real)
    requires ValidParams(p) && 0 <= cur < |w|
  {
    && |q| == |plan| && StationsOf(q) == StationsOf(plan)
    && |v| == |w| && v == w[cur := v[cur]]
    && LoadsShifted(plan, q, cur, w[cur] - v[cur], broken)
    && TruckTime(p, inst, q) + x == TruckTime(p, inst, plan) + extra
  }

  /** One more move from entry idx, at station cur, keeps the bookkeeping. */
  lemma ShippedStep(p: Params, inst: Instance, plan: seq<TruckEntry>, w: seq<int>, extra: real, cur: int, broken: bool,
                    q: seq<TruckEntry>, v: seq<int>, x: real, idx: int, nd: int, a: int)
    requires ValidParams(p) && 0 <= cur < |w| && Shipped(p, inst, plan, w, extra, cur, broken, q, v, x)
    requires 0 <= idx <= nd < |q| && q[idx].station == cur
    ensures Shipped(p, inst, plan, w, extra, cur, broken, Move(q, idx, nd, a, broken), v[cur := v[cur] - a], x - OpTime(p, 2 * a))
  {
    MoveTime(p, inst, q, idx, nd, a, broken);
    MoveShifts(q, idx, nd, a, broken);
    ShiftsAdd(plan, q, Move(q, idx, nd, a, broken), cur, w[cur] - v[cur], a, broken);
  }

  /**
   * A station with usable bikes above its target hands them on
   * (Utils.cpp:673-701): walking the schedule from its entry, every station
   * below target, and every depot, becomes the place the bikes are unloaded,
   * and as many are moved there as its shortfall (a depot takes any number),
   * the smallest room seen so far, the surplus left and the time allow.
   * The stock of the receiving station is not updated.
   */
  method ProvideUsable(p: Params, inst: Instance, plan: seq<TruckEntry>, u: seq<int>, extra: real, cur: int, idx: int)
    returns (plan': seq<TruckEntry>, u': seq<int>, extra': real)
    requires ValidParams(p) && |inst.networkInfo| == p.nbClients + 1 && |u| == p.nbClients + 1
    requires RouteIds(p, StationsOf(plan)) && 1 <= idx < |plan| && plan[idx].station == cur && 1 <= cur <= p.nbClients
    requires u[cur] > Target(inst, cur) && extra >= 0.0
    ensures Shipped(p, inst, plan, u, extra, cur, false, plan', u', extra') && Target(inst, cur) <= u'[cur] && extra' >= 0.0
    ensures Carried(plan, p.vehicleCapacity) ==> Carried(plan', p.vehicleCapacity) && u'[cur] <= u[cur]
  {
    var cap := p.vehicleCapacity;
    plan', u', extra' := plan, u, extra;
    var nd := idx;
    var minRes := Room(plan, idx, cap);
    var i := idx;
    if Carried(plan, cap) {
      assert CarriedAt(plan, idx, cap);
    }
    while i < |plan|
      invariant idx <= i <= |plan| && idx <= nd < |plan| && (nd == idx || nd < i)
      invariant Shipped(p, inst, plan, u, extra, cur, false, plan', u', extra') && plan'[idx].station == cur
      invariant Target(inst, cur) <= u'[cur] && extra' >= 0.0
      invariant Carried(plan, cap) ==>
        && Carried(plan', cap) && u'[cur] <= u[cur] && 0 <= minRes
        && forall k :: idx <= k < i ==> minRes <= Room(plan', k, cap)
    {
      var st := plan'[i].station;
      assert st == StationsOf(plan)[i];
      var deviation := 0;
      if st == 0 {
        nd, deviation := i, 9999;
      } else {
        deviation := Max(Target(inst, st) - u'[st], 0);
        if deviation > 0 {
          nd := i;
        }
      }
      ghost var carried := Carried(plan, cap);
      if carried {
        assert CarriedAt(plan', i, cap);
      }
      minRes := Min(minRes, Room(plan', i, cap));
      var a := FitLoad(p, Min(Min(deviation, minRes), u'[cur] - Target(inst, cur)), extra');
      ShippedStep(p, inst, plan, u, extra, cur, false, plan', u', extra', idx, nd, a);
      ghost var before := plan';
      ghost var minRes1 := minRes;
      minRes := minRes - a;
      plan' := MoveBikes(plan', idx, nd, a, false);
      u' := u'[cur := u'[cur] - a];
      extra' := extra' - OpTime(p, 2 * a);
      if carried {
        assert forall k :: idx <= k <= i ==> minRes1 <= Room(before, k, cap);
        MoveRooms(before, idx, nd, i, a, minRes1, cap);
      }
      i := i + 1;
    }
  }

  /** The first depot at or after entry idx, or idx itself when there is none (Utils.cpp:707-713). */
  method FirstDepot(plan: seq<TruckEntry>, idx: int) returns (nd: int)
    requires 0 <= idx < |plan|
    ensures idx <= nd < |plan| && forall k :: idx <= k < nd ==> plan[k].station != 0
    ensures plan[nd].station == 0 || (nd == idx && forall k :: idx <= k < |plan| ==> plan[k].station != 0)
  {
    nd := idx;
    var i := idx;
    while i < |plan|
      invariant idx <= i <= |plan|
      invariant forall k :: idx <= k < i ==> plan[k].station != 0
    {
      if plan[i].station == 0 {
        nd := i;
        return;
      }
      i := i + 1;
    }
  }

  /** The smallest room of the truck at entry idx and at the entries from idx up to nd, nd excluded (Utils.cpp:714-720). */
  method MinRoom(plan: seq<TruckEntry>, idx: int, nd: int, cap: int) returns (m: int)
    requires 0 <= idx <= nd < |plan|
    ensures m <= Room(plan, idx, cap) && forall k :: idx <= k < nd ==> m <= Room(plan, k, cap)
    ensures m == Room(plan, idx, cap) || exists k :: idx <= k < nd && m == Room(plan, k, cap)
  {
    m := Room(plan, idx, cap);
    var i := idx;
    while i < nd
      invariant idx <= i <= nd
      invariant m <= Room(plan, idx, cap) && forall k :: idx <= k < i ==> m <= Room(plan, k, cap)
      invariant m == Room(plan, idx, cap) || exists k :: idx <= k < i && m == Room(plan, k, cap)
    {
      m := Min(m, Room(plan, i, cap));
      i := i + 1;
    }
  }

  /** A move no larger than the smallest room over entry idx and the entries up to nd keeps the schedule carried. */
  lemma ShipCarried(plan: seq<TruckEntry>, idx: int, nd: int, a: int, m: int, cap: int)
    requires Carried(plan, cap) && 0 <= idx <= nd < |plan| && a <= m
    requires m <= Room(plan, idx, cap) && forall k :: idx <= k < nd ==> m <= Room(plan, k, cap)
    requires m == Room(plan, idx, cap) || exists k :: idx <= k < nd && m == Room(plan, k, cap)
    requires m >= 0 ==> a >= 0
    ensures 0 <= a && Carried(Move(plan, idx, nd, a, true), cap)
  {
    assert 0 <= m by {
      assert CarriedAt(plan, idx, cap);
      if m != Room(plan, idx, cap) {
        var k :| idx <= k < nd && m == Room(plan, k, cap);
        assert CarriedAt(plan, k, cap);
      }
    }
    MoveCarried(plan, idx, nd, a, true, cap);
  }

  /**
   * A station with broken bikes has them carried to the first depot after
   * it, or loaded and unloaded at its own entry when no depot follows
   * (Utils.cpp:704-728): as many as it has, the smallest room on the way
   * and the time allow.
   */
  method ShipBroken(p: Params, inst: Instance, plan: seq<TruckEntry>, b: seq<int>, extra: real, cur: int, idx: int)
    returns (plan': seq<TruckEntry>, b': seq<int>, extra': real, nd: int)
    requires ValidParams(p) && |b| == p.nbClients + 1
    requires 1 <= idx < |plan| && plan[idx].station == cur && 1 <= cur <= p.nbClients
    requires b[cur] > 0 && extra >= 0.0
    ensures idx <= nd < |plan| && forall k :: idx <= k < nd ==> plan[k].station != 0
    ensures plan[nd].station == 0 || (nd == idx && forall k :: idx <= k < |plan| ==> plan[k].station != 0)
    ensures Shipped(p, inst, plan, b, extra, cur, true, plan', b', extra') && plan' == Move(plan, idx, nd, b[cur] - b'[cur], true)
    ensures extra' >= 0.0 && 0 <= b'[cur]
    ensures var a := b[cur] - b'[cur];
      || a == b[cur] || extra' < OpTime(p, 2) || a == Room(plan, idx, p.vehicleCapacity)
      || exists k :: idx <= k < nd && a == Room(plan, k, p.vehicleCapacity)
    ensures Carried(plan, p.vehicleCapacity) ==> Carried(plan', p.vehicleCapacity) && b'[cur] <= b[cur]
  {
    var cap := p.vehicleCapacity;
    nd := FirstDepot(plan, idx);
    var minRes := MinRoom(plan, idx, nd, cap);
    var a := FitLoad(p, Min(minRes, b[cur]), extra);
    ShippedStep(p, inst, plan, b, extra, cur, true, plan, b, extra, idx, nd, a);
    plan' := MoveBikes(plan, idx, nd, a, true);
    b' := b[cur := b[cur] - a];
    extra' := extra - OpTime(p, 2 * a);
    assert a == b[cur] || a == minRes || extra' < OpTime(p, 2);
    if Carried(plan, cap) {
      ShipCarried(plan, idx, nd, a, minRes, cap);
    }
  }

  /** A station of the schedule still off balance, with the entry where it is met (Utils.cpp:660-666). */
  datatype Pending = Pending(station: int, idx: int)

  /** Station s is not the depot and has usable bikes off its target or broken bikes (Utils.cpp:660-662). */
  predicate OffBalance(inst: Instance, u: seq<int>, b: seq<int>, s: int)
    requires 0 <= s < |u| && s < |b| && s < |inst.networkInfo|
  {
    s != 0 && (u[s] != Target(inst, s) || b[s] > 0)
  }

  /** The entries 1..n-1 of the schedule whose station is off balance, in schedule order (Utils.cpp:655-667). */
  function PendingUpTo(inst: Instance, u: seq<int>, b: seq<int>, stations: seq<int>, n: int): (c: seq<Pending>)
    requires 1 <= n <= |stations|
    requires forall k :: 0 <= k < |stations| ==> 0 <= stations[k] < |u| && stations[k] < |b| && stations[k] < |inst.networkInfo|
    ensures forall k :: 0 <= k < |c| ==>
      1 <= c[k].idx < n && c[k].station == stations[c[k].idx] && OffBalance(inst, u, b, c[k].station)
  {
    if n == 1 then []
    else PendingUpTo(inst, u, b, stations, n - 1) + (if OffBalance(inst, u, b, stations[n - 1]) then [Pending(stations[n - 1], n - 1)] else [])
  }

  /** The pending entries are in schedule order. */
  lemma {:induction false} PendingOrdered(inst: Instance, u: seq<int>, b: seq<int>, stations: seq<int>, n: int)
    requires 1 <= n <= |stations|
    requires forall k :: 0 <= k < |stations| ==> 0 <= stations[k] < |u| && stations[k] < |b| && stations[k] < |inst.networkInfo|
    ensures forall k, l :: 0 <= k < l < |PendingUpTo(inst, u, b, stations, n)| ==>
      PendingUpTo(inst, u, b, stations, n)[k].idx < PendingUpTo(inst, u, b, stations, n)[l].idx
  {
    if n > 1 {
      PendingOrdered(inst, u, b, stations, n - 1);
      var front := PendingUpTo(inst, u, b, stations, n - 1);
      var c := PendingUpTo(inst, u, b, stations, n);
      forall k, l | 0 <= k < l < |c| ensures c[k].idx < c[l].idx {
        assert c[k] == front[k] && front[k].idx < n - 1;
        if l < |front| {
          assert c[l] == front[l] && front[k].idx < front[l].idx;
        } else {
          assert c[l] == Pending(stations[n - 1], n - 1);
        }
      }
    }
  }

  /** The pending entries hold every off-balance entry after the first. */
  lemma {:induction false} PendingComplete(inst: Instance, u: seq<int>, b: seq<int>, stations: seq<int>, n: int)
    requires 1 <= n <= |stations|
    requires forall k :: 0 <= k < |stations| ==> 0 <= stations[k] < |u| && stations[k] < |b| && stations[k] < |inst.networkInfo|
    ensures forall i :: 1 <= i < n && OffBalance(inst, u, b, stations[i]) ==> Pending(stations[i], i) in PendingUpTo(inst, u, b, stations, n)
  {
    if n > 1 {
      PendingComplete(inst, u, b, stations, n - 1);
      var front := PendingUpTo(inst, u, b, stations, n - 1);
      var c := PendingUpTo(inst, u, b, stations, n);
      forall i | 1 <= i < n && OffBalance(inst, u, b, stations[i]) ensures Pending(stations[i], i) in c {
        if i < n - 1 {
          assert Pending(stations[i], i) in front;
        }
      }
    }
  }

  /** Extending a schedule prefix by one entry adds one leg and that entry's operations to its time. */
  lemma TruckTimeExtend(p: Params, inst: Instance, plan: seq<TruckEntry>, i: int)
    requires ValidParams(p) && 1 <= i < |plan|
    ensures TruckTime(p, inst, plan[..i + 1]) ==
      TruckTime(p, inst, plan[..i]) + inst.dist(plan[i - 1].station, plan[i].station) + OpTime(p, Ops(plan[i]))
  {
    var a, c := plan[..i], plan[..i + 1];
    assert c[..i] == a;
    assert StationsOf(c)[..i] == StationsOf(a);
    assert Tally(c, OpsOf()) == Tally(a, OpsOf()) + Ops(plan[i]);
    OpTimeAdd(p, Tally(a, OpsOf()), Ops(plan[i]));
  }

  /**
   * The first pass over the truck's schedule (Utils.cpp:651-667): the time
   * it takes and, in schedule order, the entries after the first whose
   * station is off balance.
   */
  method ScanTruckSchedule(p: Params, inst: Instance, plan: seq<TruckEntry>, u: seq<int>, b: seq<int>)
    returns (total: real, cands: seq<Pending>)
    requires ValidParams(p) && |inst.networkInfo| == |u| == |b| == p.nbClients + 1
    requires RouteIds(p, StationsOf(plan)) && |plan| >= 1
    ensures total == TruckTime(p, inst, plan)
    ensures cands == PendingUpTo(inst, u, b, StationsOf(plan), |plan|)
  {
    total := OpTime(p, Ops(plan[0]));
    cands := [];
    assert plan[..1] == [plan[0]];
    assert Tally([plan[0]], OpsOf()) == Ops(plan[0]) by { assert [plan[0]][..0] == []; }
    var i := 1;
    while i < |plan|
      invariant 1 <= i <= |plan|
      invariant total == TruckTime(p, inst, plan[..i])
      invariant cands == PendingUpTo(inst, u, b, StationsOf(plan), i)
    {
      var s := plan[i].station;
      assert IsStation(p, StationsOf(plan)[i]);
      TruckTimeExtend(p, inst, plan, i);
      total := total + inst.dist(plan[i - 1].station, s) + OpTime(p, Ops(plan[i]));
      if s != 0 && (u[s] != Target(inst, s) || b[s] > 0) {
        cands := cands + [Pending(s, i)];
      }
      i := i + 1;
    }
    assert plan[..i] == plan;
  }

  /**
   * Schedule q and stocks v, c come from plan and stocks u, b by loading
   * bikes at the stations of the schedule: the stations are the same; at
   * every station the stock plus what is loaded there is unchanged (the
   * bikes unloaded are not credited to any stock); no station drops below
   * its target through the usable bikes taken, nor below zero broken bikes;
   * the depot and the stations off the schedule keep their stock; and on a
   * consistent schedule within capacity, the schedule stays so and no stock
   * grows.
   */
  ghost predicate StockLoaded(p: Params, inst: Instance, plan: seq<TruckEntry>, u: seq<int>, b: seq<int>,
                              q: seq<TruckEntry>, v: seq<int>, c: seq<int>)
    requires |u| == |b| == |inst.networkInfo|
  {
    && |q| == |plan| && StationsOf(q) == StationsOf(plan)
    && |v| == |u| && |c| == |b|
    && (forall s :: 0 <= s < |u| ==> v[s] + Tally(q, LoadedUAt(s)) == u[s] + Tally(plan, LoadedUAt(s)))
    && (forall s :: 0 <= s < |b| ==> c[s] + Tally(q, LoadedBAt(s)) == b[s] + Tally(plan, LoadedBAt(s)))
    && (forall s :: 0 < s < |u| ==> v[s] >= Min(u[s], Target(inst, s)) && c[s] >= Min(b[s], 0))
    && (forall s :: 0 <= s < |u| && (s == 0 || s !in StationsOf(plan)) ==> v[s] == u[s] && c[s] == b[s])
    && (Carried(plan, p.vehicleCapacity) ==>
          Carried(q, p.vehicleCapacity) && forall s :: 0 <= s < |u| ==> v[s] <= u[s] && c[s] <= b[s])
  }

  lemma StockLoadedSame(p: Params, inst: Instance, plan: seq<TruckEntry>, u: seq<int>, b: seq<int>)
    requires |u| == |b| == |inst.networkInfo|
    ensures StockLoaded(p, inst, plan, u, b, plan, u, b)
  {
  }

  /** Handing on usable bikes at a station of the schedule keeps the schedule's stock accounting. */
  lemma StockLoadedUsable(p: Params, inst: Instance, plan: seq<TruckEntry>, u: seq<int>, b: seq<int>, extra: real,
                          q: seq<TruckEntry>, v: seq<int>, c: seq<int>, x: real, cur: int, q': seq<TruckEntry>, v': seq<int>, x': real)
    requires ValidParams(p) && |u| == |b| == |inst.networkInfo| && StockLoaded(p, inst, plan, u, b, q, v, c)
    requires 0 < cur < |u| && cur in StationsOf(plan) && Shipped(p, inst, q, v, x, cur, false, q', v', x')
    requires Target(inst, cur) <= v'[cur] && (Carried(q, p.vehicleCapacity) ==> Carried(q', p.vehicleCapacity) && v'[cur] <= v[cur])
    ensures StockLoaded(p, inst, plan, u, b, q', v', c)
  {
    forall s | 0 <= s < |b| ensures c[s] + Tally(q', LoadedBAt(s)) == b[s] + Tally(plan, LoadedBAt(s)) {
      assert Tally(q', LoadedBAt(s)) == Tally(q, LoadedBAt(s));
    }
    forall s | 0 <= s < |u| ensures v'[s] + Tally(q', LoadedUAt(s)) == u[s] + Tally(plan, LoadedUAt(s)) {
      assert Tally(q', LoadedUAt(s)) == Tally(q, LoadedUAt(s)) + (if s == cur then v[cur] - v'[cur] else 0);
    }
  }

  /** Shipping broken bikes from a station of the schedule keeps the schedule's stock accounting. */
  lemma StockLoadedBroken(p: Params, inst: Instance, plan: seq<TruckEntry>, u: seq<int>, b: seq<int>, extra: real,
                          q: seq<TruckEntry>, v: seq<int>, c: seq<int>, x: real, cur: int, q': seq<TruckEntry>, c': seq<int>, x': real)
    requires ValidParams(p) && |u| == |b| == |inst.networkInfo| && StockLoaded(p, inst, plan, u, b, q, v, c)
    requires 0 < cur < |u| && cur in StationsOf(plan) && Shipped(p, inst, q, c, x, cur, true, q', c', x')
    requires 0 <= c'[cur] && (Carried(q, p.vehicleCapacity) ==> Carried(q', p.vehicleCapacity) && c'[cur] <= c[cur])
    ensures StockLoaded(p, inst, plan, u, b, q', v, c')
  {
    forall s | 0 <= s < |u| ensures v[s] + Tally(q', LoadedUAt(s)) == u[s] + Tally(plan, LoadedUAt(s)) {
      assert Tally(q', LoadedUAt(s)) == Tally(q, LoadedUAt(s));
    }
    forall s | 0 <= s < |b| ensures c'[s] + Tally(q', LoadedBAt(s)) == b[s] + Tally(plan, LoadedBAt(s)) {
      assert Tally(q', LoadedBAt(s)) == Tally(q, LoadedBAt(s)) + (if s == cur then c[cur] - c'[cur] else 0);
    }
  }

  /** StockLoaded composes. */
  lemma StockLoadedTrans(p: Params, inst: Instance, plan: seq<TruckEntry>, u: seq<int>, b: seq<int>,
                         q: seq<TruckEntry>, v: seq<int>, c: seq<int>, q': seq<TruckEntry>, v': seq<int>, c': seq<int>)
    requires |u| == |b| == |inst.networkInfo|
    requires StockLoaded(p, inst, plan, u, b, q, v, c) && StockLoaded(p, inst, q, v, c, q', v', c')
    ensures StockLoaded(p, inst, plan, u, b, q', v', c')
  {
  }

  /**
   * One round of the main loop (Utils.cpp:672-729): the pending station cur,
   * met at entry idx, hands on its usable surplus, if any, and then ships
   * its broken bikes, if any and if time is left.
   */
  method AmendStation(p: Params, inst: Instance, plan: seq<TruckEntry>, u: seq<int>, b: seq<int>, extra: real, cur: int, idx: int)
    returns (plan': seq<TruckEntry>, u': seq<int>, b': seq<int>, extra': real)
    requires ValidParams(p) && |inst.networkInfo| == |u| == |b| == p.nbClients + 1 && RouteIds(p, StationsOf(plan))
    requires 1 <= idx < |plan| && plan[idx].station == cur && cur != 0 && extra >= 0.0
    ensures StockLoaded(p, inst, plan, u, b, plan', u', b')
    ensures TruckTime(p, inst, plan') + extra' == TruckTime(p, inst, plan) + extra && extra' >= 0.0
  {
    plan', u', b', extra' := plan, u, b, extra;
    StockLoadedSame(p, inst, plan, u, b);
    assert StationsOf(plan)[idx] == cur && IsStation(p, cur);
    if u'[cur] - Target(inst, cur) > 0 {
      var plan1, u1, extra1 := ProvideUsable(p, inst, plan', u', extra', cur, idx);
      StockLoadedUsable(p, inst, plan, u, b, extra, plan', u', b', extra', cur, plan1, u1, extra1);
      plan', u', extra' := plan1, u1, extra1;
    }
    if extra' >= OpTime(p, 2) && b'[cur] > 0 {
      var plan1, b1, extra1, _ := ShipBroken(p, inst, plan', b', extra', cur, idx);
      StockLoadedBroken(p, inst, plan, u, b, extra, plan', u', b', extra', cur, plan1, b1, extra1);
      plan', b', extra' := plan1, b1, extra1;
    }
  }

  /**
   * The main loop (Utils.cpp:671-730): while the truck has time for at
   * least one more bike and a pending station is left, the next one in
   * schedule order is amended.
   */
  method AmendTrucks(p: Params, inst: Instance, plan: seq<TruckEntry>, u: seq<int>, b: seq<int>, extra: real, cands: seq<Pending>)
    returns (plan': seq<TruckEntry>, u': seq<int>, b': seq<int>, extra': real)
    requires ValidParams(p) && |inst.networkInfo| == |u| == |b| == p.nbClients + 1 && RouteIds(p, StationsOf(plan))
    requires forall k :: 0 <= k < |cands| ==>
      1 <= cands[k].idx < |plan| && cands[k].station == plan[cands[k].idx].station && cands[k].station != 0
    ensures StockLoaded(p, inst, plan, u, b, plan', u', b')
    ensures TruckTime(p, inst, plan') + extra' == TruckTime(p, inst, plan) + extra
    ensures extra >= 0.0 ==> extra' >= 0.0
    ensures extra < OpTime(p, 2) ==> plan' == plan && u' == u && b' == b && extra' == extra
  {
    plan', u', b', extra' := plan, u, b, extra;
    StockLoadedSame(p, inst, plan, u, b);
    var i := 0;
    while extra' >= OpTime(p, 2) && i < |cands|
      invariant 0 <= i <= |cands|
      invariant StockLoaded(p, inst, plan, u, b, plan', u', b')
      invariant TruckTime(p, inst, plan') + extra' == TruckTime(p, inst, plan) + extra
      invariant extra >= 0.0 ==> extra' >= 0.0
      invariant extra < OpTime(p, 2) ==> plan' == plan && u' == u && b' == b && extra' == extra
      decreases |cands| - i
    {
      assert plan'[cands[i].idx].station == StationsOf(plan)[cands[i].idx];
      var plan1, u1, b1, extra1 := AmendStation(p, inst, plan', u', b', extra', cands[i].station, cands[i].idx);
      StockLoadedTrans(p, inst, plan, u, b, plan', u', b', plan1, u1, b1);
      plan', u', b', extra' := plan1, u1, b1, extra1;
      i := i + 1;
    }
  }

  /**
   * The truck schedule amendment (Utils.cpp:648-731): the time left in the
   * budget is spent on the stations of the schedule still off balance. The
   * stations visited stay the same, the stock accounting of StockLoaded
   * holds, a schedule within the budget stays within it, and a schedule
   * without time for one more bike is left as it is.
   */
  method TruckSchemeAmendment(p: Params, inst: Instance, plan: seq<TruckEntry>, u: seq<int>, b: seq<int>)
    returns (plan': seq<TruckEntry>, u': seq<int>, b': seq<int>)
    requires ValidParams(p) && |inst.networkInfo| == |u| == |b| == p.nbClients + 1
    requires RouteIds(p, StationsOf(plan)) && |plan| >= 1
    ensures StockLoaded(p, inst, plan, u, b, plan', u', b')
    ensures TruckTime(p, inst, plan) <= p.timeBudget ==> TruckTime(p, inst, plan') <= p.timeBudget
    ensures p.timeBudget - TruckTime(p, inst, plan) < OpTime(p, 2) ==> plan' == plan && u' == u && b' == b
  {
    var total, cands := ScanTruckSchedule(p, inst, plan, u, b);
    var extra := p.timeBudget - total;
    var extra';
    plan', u', b', extra' := AmendTrucks(p, inst, plan, u, b, extra, cands);
  }
}
