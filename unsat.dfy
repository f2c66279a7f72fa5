/*
 * The find-or-insert updates of the association lists keyed by station
 * (helpers/Utils.cpp: unSatUpdate, unSatUpdateOverwrite, extraUpdate). The
 * program searches with std::find_if, i.e. it touches the FIRST record of the
 * station; when keys are unique that is the only one.
 */
module UnsatLists {
  import opened Schemes

  /** The records of `l` carry pairwise different keys. */
  predicate UniqueKeys<T>(l: seq<T>, key: T -> int) {
    forall i, j :: 0 <= i < j < |l| ==> key(l[i]) != key(l[j])
  }

  /** Index of the first record of `l` whose key is `s`, or |l| when there is none. */
  function FindFirst<T>(l: seq<T>, key: T -> int, s: int): (k: nat)
    ensures k <= |l|
    ensures k < |l| ==> key(l[k]) == s
    ensures forall j :: 0 <= j < k ==> key(l[j]) != s
  {
    if |l| == 0 then 0
    else if key(l[0]) == s then 0
    else 1 + FindFirst(l[1..], key, s)
  }

  /** The find_if loop shared by the three updates. */
  method FindStation<T>(l: seq<T>, key: T -> int, s: int) returns (k: nat)
    ensures k == FindFirst(l, key, s)
  {
    k := 0;
    while k < |l| && key(l[k]) != s
      invariant k <= |l|
      invariant forall j :: 0 <= j < k ==> key(l[j]) != s
    {
      k := k + 1;
    }
    FindFirstUnique(l, key, s, k);
  }

  /** Any position satisfying FindFirst's contract is FindFirst. */
  lemma FindFirstUnique<T>(l: seq<T>, key: T -> int, s: int, k: nat)
    requires k <= |l|
    requires k < |l| ==> key(l[k]) == s
    requires forall j :: 0 <= j < k ==> key(l[j]) != s
    ensures k == FindFirst(l, key, s)
  {
  }

  /**
   * unSatUpdate: a zero surplus changes nothing; a known station keeps its
   * schedule index, adds the surplus and takes the new priority; an unknown
   * station is appended.
   */
  method UnSatUpdate(l: seq<UnsatRecord>, station: int, idx: int, surplus: int, priority: real)
    returns (r: seq<UnsatRecord>)
    ensures surplus == 0 ==> r == l
    ensures surplus != 0 && FindFirst(l, UnsatStation, station) == |l| ==>
      r == l + [UnsatRecord(station, idx, surplus, priority)]
    ensures surplus != 0 && FindFirst(l, UnsatStation, station) < |l| ==>
      var k := FindFirst(l, UnsatStation, station);
      r == l[k := UnsatRecord(station, l[k].idx, l[k].surplus + surplus, priority)]
    ensures UniqueKeys(l, UnsatStation) ==> UniqueKeys(r, UnsatStation)
  {
    if surplus == 0 {
      return l;
    }
    var k := FindStation(l, UnsatStation, station);
    if k < |l| {
      r := l[k := l[k].(surplus := l[k].surplus + surplus, priority := priority)];
    } else {
      r := l + [UnsatRecord(station, idx, surplus, priority)];
    }
    if UniqueKeys(l, UnsatStation) {
      UpdateKeepsKeysUnique(l, UnsatStation, k, if k < |l| then r[k] else UnsatRecord(station, idx, surplus, priority));
    }
  }

  /** unSatUpdateOverwrite: as UnSatUpdate, except that a known station's surplus is replaced. */
  method UnSatUpdateOverwrite(l: seq<UnsatRecord>, station: int, idx: int, surplus: int, priority: real)
    returns (r: seq<UnsatRecord>)
    ensures surplus == 0 ==> r == l
    ensures surplus != 0 && FindFirst(l, UnsatStation, station) == |l| ==>
      r == l + [UnsatRecord(station, idx, surplus, priority)]
    ensures surplus != 0 && FindFirst(l, UnsatStation, station) < |l| ==>
      var k := FindFirst(l, UnsatStation, station);
      r == l[k := UnsatRecord(station, l[k].idx, surplus, priority)]
    ensures UniqueKeys(l, UnsatStation) ==> UniqueKeys(r, UnsatStation)
  {
    if surplus == 0 {
      return l;
    }
    var k := FindStation(l, UnsatStation, station);
    if k < |l| {
      r := l[k := l[k].(surplus := surplus, priority := priority)];
    } else {
      r := l + [UnsatRecord(station, idx, surplus, priority)];
    }
    if UniqueKeys(l, UnsatStation) {
      UpdateKeepsKeysUnique(l, UnsatStation, k, if k < |l| then r[k] else UnsatRecord(station, idx, surplus, priority));
    }
  }

  /** extraUpdate: a zero amount changes nothing; otherwise the station's entry accumulates it or is appended. */
  method ExtraUpdate(l: seq<ExtraRecord>, station: int, time: real) returns (r: seq<ExtraRecord>)
    ensures time == 0.0 ==> r == l
    ensures time != 0.0 && FindFirst(l, ExtraStation, station) == |l| ==> r == l + [ExtraRecord(station, time)]
    ensures time != 0.0 && FindFirst(l, ExtraStation, station) < |l| ==>
      var k := FindFirst(l, ExtraStation, station);
      r == l[k := ExtraRecord(station, l[k].time + time)]
    ensures UniqueKeys(l, ExtraStation) ==> UniqueKeys(r, ExtraStation)
  {
    if time == 0.0 {
      return l;
    }
    var k := FindStation(l, ExtraStation, station);
    if k < |l| {
      r := l[k := l[k].(time := l[k].time + time)];
    } else {
      r := l + [ExtraRecord(station, time)];
    }
    if UniqueKeys(l, ExtraStation) {
      UpdateKeepsKeysUnique(l, ExtraStation, k, if k < |l| then r[k] else ExtraRecord(station, time));
    }
  }

  /** Updating a record in place, or appending a record whose key is absent, keeps keys unique. */
  lemma UpdateKeepsKeysUnique<T>(l: seq<T>, key: T -> int, k: nat, e: T)
    requires UniqueKeys(l, key)
    requires k <= |l|
    requires k < |l| ==> key(e) == key(l[k])
    requires k == |l| ==> FindFirst(l, key, key(e)) == |l|
    ensures UniqueKeys(if k < |l| then l[k := e] else l + [e], key)
  {
    var r := if k < |l| then l[k := e] else l + [e];
    forall i, j | 0 <= i < j < |r| ensures key(r[i]) != key(r[j]) {
      if k == |l| && j == |l| {
        assert key(l[i]) != key(e);
      }
    }
  }

  /** With unique keys, the record FindFirst finds is the only one with that key. */
  lemma FindFirstOnly<T>(l: seq<T>, key: T -> int, s: int, j: nat)
    requires UniqueKeys(l, key)
    requires j < |l| && key(l[j]) == s
    ensures FindFirst(l, key, s) == j
  {
  }

  /**
   * A property every record has survives unSatUpdateOverwrite when the
   * records it writes have it too.
   */
  lemma OverwriteKeeps(l: seq<UnsatRecord>, station: int, idx: int, surplus: int, priority: real,
                       r: seq<UnsatRecord>, P: UnsatRecord -> bool)
    requires surplus == 0 ==> r == l
    requires surplus != 0 && FindFirst(l, UnsatStation, station) == |l| ==>
      r == l + [UnsatRecord(station, idx, surplus, priority)]
    requires surplus != 0 && FindFirst(l, UnsatStation, station) < |l| ==>
      var k := FindFirst(l, UnsatStation, station);
      r == l[k := UnsatRecord(station, l[k].idx, surplus, priority)]
    requires forall x :: x in l ==> P(x)
    requires surplus != 0 ==> P(UnsatRecord(station, idx, surplus, priority))
    requires surplus != 0 ==> forall x :: x in l && x.station == station ==> P(UnsatRecord(station, x.idx, surplus, priority))
    ensures forall x :: x in r ==> P(x)
  {
    var k := FindFirst(l, UnsatStation, station);
    if surplus != 0 && k < |l| {
      assert l[k] in l;
      forall x | x in r ensures P(x) {
        var j :| 0 <= j < |r| && r[j] == x;
        if j != k {
          assert l[j] in l;
        }
      }
    }
  }

  /** The same for unSatUpdate, whose rewritten record accumulates the surplus. */
  lemma UpdateKeeps(l: seq<UnsatRecord>, station: int, idx: int, surplus: int, priority: real,
                    r: seq<UnsatRecord>, P: UnsatRecord -> bool)
    requires surplus == 0 ==> r == l
    requires surplus != 0 && FindFirst(l, UnsatStation, station) == |l| ==>
      r == l + [UnsatRecord(station, idx, surplus, priority)]
    requires surplus != 0 && FindFirst(l, UnsatStation, station) < |l| ==>
      var k := FindFirst(l, UnsatStation, station);
      r == l[k := UnsatRecord(station, l[k].idx, l[k].surplus + surplus, priority)]
    requires forall x :: x in l ==> P(x)
    requires surplus != 0 ==> P(UnsatRecord(station, idx, surplus, priority))
    requires surplus != 0 ==> forall x :: x in l && x.station == station ==>
      P(UnsatRecord(station, x.idx, x.surplus + surplus, priority))
    ensures forall x :: x in r ==> P(x)
  {
    var k := FindFirst(l, UnsatStation, station);
    if surplus != 0 && k < |l| {
      assert l[k] in l;
      forall x | x in r ensures P(x) {
        var j :| 0 <= j < |r| && r[j] == x;
        if j != k {
          assert l[j] in l;
        }
      }
    }
  }

  /** The same for extraUpdate. */
  lemma ExtraKeeps(l: seq<ExtraRecord>, station: int, time: real, r: seq<ExtraRecord>, P: ExtraRecord -> bool)
    requires time == 0.0 ==> r == l
    requires time != 0.0 && FindFirst(l, ExtraStation, station) == |l| ==> r == l + [ExtraRecord(station, time)]
    requires time != 0.0 && FindFirst(l, ExtraStation, station) < |l| ==>
      var k := FindFirst(l, ExtraStation, station);
      r == l[k := ExtraRecord(station, l[k].time + time)]
    requires forall x :: x in l ==> P(x)
    requires time != 0.0 ==> P(ExtraRecord(station, time))
    requires time != 0.0 ==> forall x :: x in l && x.station == station ==> P(ExtraRecord(station, x.time + time))
    ensures forall x :: x in r ==> P(x)
  {
    var k := FindFirst(l, ExtraStation, station);
    if time != 0.0 && k < |l| {
      assert l[k] in l;
      forall x | x in r ensures P(x) {
        var j :| 0 <= j < |r| && r[j] == x;
        if j != k {
          assert l[j] in l;
        }
      }
    }
  }
}
