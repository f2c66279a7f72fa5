/*
 * The route operators of the local search (LocalSearch.cpp:64-403), one
 * route at a time. Each takes the raw random draws it consumes; the first and
 * the last entry of a route (the depots) are never moved.
 */
module RouteMoves {
  import opened Random
  import opened Instances
  import opened Routes

  /** `r` is `s` with positions i and j exchanged. */
  predicate SwappedAt(s: seq<int>, r: seq<int>, i: int, j: int) {
    |r| == |s| && 0 <= i < |s| && 0 <= j < |s| &&
    r[i] == s[j] && r[j] == s[i] && forall k :: 0 <= k < |s| && k != i && k != j ==> r[k] == s[k]
  }

  /** Same length, same first and last entry, same entries counted with multiplicity. */
  predicate SameEndsPermutation(s: seq<int>, r: seq<int>) {
    |r| == |s| && multiset(r) == multiset(s) && (|s| > 0 ==> r[0] == s[0] && r[|r| - 1] == s[|s| - 1])
  }

  /** swapTwoRandomElements on one route: two distinct interior positions exchange their stations. */
  function SwapTwoRandomElements(route: seq<int>, raw1: nat, raw2: nat): (r: seq<int>)
    ensures |route| <= 3 ==> r == route
    ensures |route| > 3 ==> SameEndsPermutation(route, r)
    ensures |route| > 3 ==> exists i, j :: 1 <= i < |route| - 1 && 1 <= j < |route| - 1 && i != j && SwappedAt(route, r, i, j)
  {
    if |route| <= 3 then route
    else
      var m := |route| - 2;
      var i := GetRand(raw1, m) + 1;
      var j := PickOther(raw2, m, i);
      var r := route[i := route[j]][j := route[i]];
      assert SwappedAt(route, r, i, j);
      assert multiset(r) == multiset(route) by {
        assert r == route[i := route[j]][j := route[i]];
      }
      r
  }

  /**
   * swapTwoSubtours on one route: the blocks [i0, i1] and [i2, i3] trade
   * places. The indices are the sorted draws once the redraw loop of
   * LocalSearch.cpp:119-122 has made i1 < i2.
   */
  function SwapTwoSubtours(route: seq<int>, i0: int, i1: int, i2: int, i3: int): (r: seq<int>)
    requires |route| > 4 ==> 1 <= i0 <= i1 < i2 <= i3 <= |route| - 2
    ensures |route| <= 4 ==> r == route
    ensures |route| > 4 ==> SameEndsPermutation(route, r)
    ensures |route| > 4 ==> r[..i0] == route[..i0] && r[i3 + 1..] == route[i3 + 1..]
  {
    if |route| <= 4 then route
    else
      var r := route[..i0] + route[i2..i3 + 1] + route[i1 + 1..i2] + route[i0..i1 + 1] + route[i3 + 1..];
      BlockSwapFacts(route, i0, i1, i2, i3);
      r
  }

  lemma BlockSwapFacts(route: seq<int>, i0: int, i1: int, i2: int, i3: int)
    requires 1 <= i0 <= i1 < i2 <= i3 <= |route| - 2
    ensures var r := route[..i0] + route[i2..i3 + 1] + route[i1 + 1..i2] + route[i0..i1 + 1] + route[i3 + 1..];
      SameEndsPermutation(route, r) && r[..i0] == route[..i0] && r[i3 + 1..] == route[i3 + 1..]
  {
    var a, b, c, d, e := route[..i0], route[i0..i1 + 1], route[i1 + 1..i2], route[i2..i3 + 1], route[i3 + 1..];
    assert route == a + b + c + d + e;
    var r := a + d + c + b + e;
    assert multiset(r) == multiset(a) + multiset(d) + multiset(c) + multiset(b) + multiset(e);
    assert |r| == |route|;
    assert r[..i0] == a;
    assert r[i3 + 1..] == e;
  }

  /** Removing what was just inserted gives the sequence back. */
  lemma InsertRemoveRoundTrip(s: seq<int>, i: int, x: int)
    requires 0 <= i <= |s|
    ensures RemoveAt(InsertAt(s, i, x), i) == s
  {
  }

  /** relocateOneNode on one route: one interior station moves to another interior position. */
  function RelocateOneNode(route: seq<int>, raw1: nat, raw2: nat): (r: seq<int>)
    ensures |route| <= 3 ==> r == route
    ensures |route| > 3 ==> SameEndsPermutation(route, r)
    ensures |route| > 3 ==> exists i, j :: (1 <= i < |route| - 1 && 1 <= j < |route| - 1 &&
      r[j] == route[i] && RemoveAt(r, j) == RemoveAt(route, i))
  {
    if |route| <= 3 then route
    else
      var i := GetRand(raw1, |route| - 2) + 1;
      var rest := RemoveAt(route, i);
      var j := if |rest| == 3 then GetRand(raw2, 2) + 1 else PickOther(raw2, |rest| - 1, i);
      var r := InsertAt(rest, j, route[i]);
      RelocateFacts(route, i, j);
      r
  }

  lemma RelocateFacts(route: seq<int>, i: int, j: int)
    requires 1 <= i < |route| - 1 && 1 <= j < |route| - 1
    ensures var r := InsertAt(RemoveAt(route, i), j, route[i]);
      SameEndsPermutation(route, r) && r[j] == route[i] && RemoveAt(r, j) == RemoveAt(route, i)
  {
    var rest := RemoveAt(route, i);
    InsertRemoveRoundTrip(rest, j, route[i]);
  }

  /**
   * relocateOneSubtour on one route: an interior block [i1, i2] (i1 < i2, both
   * drawn below |route| - 2) is cut out and reinserted at an interior position
   * of what remains.
   */
  function RelocateOneSubtour(route: seq<int>, raw1: nat, raw2: nat, raw3: nat): (r: seq<int>)
    ensures |route| <= 4 ==> r == route
    ensures |route| > 4 ==> SameEndsPermutation(route, r)
    ensures |route| > 4 ==> exists i1, i2, i3 :: (1 <= i1 < i2 <= |route| - 3 && 1 <= i3 <= |route| - (i2 - i1 + 1) - 2 &&
      r == MoveBlock(route, i1, i2, i3))
  {
    if |route| <= 4 then route
    else
      var m := |route| - 3;
      var a := GetRand(raw1, m) + 1;
      var b := PickOther(raw2, m, a);
      var i1 := if a < b then a else b;
      var i2 := if a < b then b else a;
      var i3 := GetRand(raw3, |route| - (i2 - i1 + 1) - 2) + 1;
      MoveBlockFacts(route, i1, i2, i3);
      MoveBlock(route, i1, i2, i3)
  }

  /** The block [i1, i2] cut out of `route` and inserted before position i3 of the remainder. */
  function MoveBlock(route: seq<int>, i1: int, i2: int, i3: int): seq<int>
    requires 0 <= i1 <= i2 < |route|
    requires 0 <= i3 <= |route| - (i2 - i1 + 1)
  {
    var rest := route[..i1] + route[i2 + 1..];
    rest[..i3] + route[i1..i2 + 1] + rest[i3..]
  }

  lemma MoveBlockFacts(route: seq<int>, i1: int, i2: int, i3: int)
    requires 1 <= i1 <= i2 < |route| - 1
    requires 1 <= i3 <= |route| - (i2 - i1 + 1) - 1
    ensures SameEndsPermutation(route, MoveBlock(route, i1, i2, i3))
  {
    var sub := route[i1..i2 + 1];
    var rest := route[..i1] + route[i2 + 1..];
    CutPermutes(route, i1, i2);
    InsertPermutes(rest, sub, i3);
    var r := MoveBlock(route, i1, i2, i3);
    assert r[0] == rest[0] == route[0];
    assert r[|r| - 1] == rest[|rest| - 1] == route[|route| - 1];
  }

  /** Cutting a block out leaves, together with the block, the same multiset. */
  lemma CutPermutes(route: seq<int>, i1: int, i2: int)
    requires 0 <= i1 <= i2 < |route|
    ensures multiset(route[..i1] + route[i2 + 1..]) + multiset(route[i1..i2 + 1]) == multiset(route)
  {
    assert route == route[..i1] + route[i1..i2 + 1] + route[i2 + 1..];
  }

  /** Inserting a block anywhere adds its multiset. */
  lemma InsertPermutes(rest: seq<int>, sub: seq<int>, i: int)
    requires 0 <= i <= |rest|
    ensures multiset(rest[..i] + sub + rest[i..]) == multiset(rest) + multiset(sub)
  {
    assert rest == rest[..i] + rest[i..];
  }

  /** The reversal of a sequence. */
  function Reverse(s: seq<int>): (r: seq<int>)
    ensures |r| == |s|
    ensures forall k :: 0 <= k < |s| ==> r[k] == s[|s| - 1 - k]
    ensures multiset(r) == multiset(s)
  {
    if s == [] then []
    else
      assert s == [s[0]] + s[1..];
      Reverse(s[1..]) + [s[0]]
  }

  /** reverseOneSubtour on one route: the interior block [i1, i2] (i1 < i2) is reversed; nothing else moves. */
  function ReverseOneSubtour(route: seq<int>, raw1: nat, raw2: nat): (r: seq<int>)
    ensures |route| <= 3 ==> r == route
    ensures |route| > 3 ==> SameEndsPermutation(route, r)
    ensures |route| > 3 ==> exists i1, i2 :: 1 <= i1 < i2 <= |route| - 2 && ReversedBetween(route, r, i1, i2)
  {
    if |route| <= 3 then route
    else
      var m := |route| - 2;
      var a := GetRand(raw1, m) + 1;
      var b := PickOther(raw2, m, a);
      var i1 := if a < b then a else b;
      var i2 := if a < b then b else a;
      ReverseFacts(route, i1, i2);
      route[..i1] + Reverse(route[i1..i2 + 1]) + route[i2 + 1..]
  }

  /** `r` is `s` with the block [i1, i2] reversed and every other position unchanged. */
  predicate ReversedBetween(s: seq<int>, r: seq<int>, i1: int, i2: int) {
    |r| == |s| && 0 <= i1 <= i2 < |s| &&
    (forall k :: i1 <= k <= i2 ==> r[k] == s[i1 + i2 - k]) &&
    (forall k :: 0 <= k < |s| && (k < i1 || i2 < k) ==> r[k] == s[k])
  }

  lemma ReverseFacts(route: seq<int>, i1: int, i2: int)
    requires 1 <= i1 < i2 <= |route| - 2
    ensures var r := route[..i1] + Reverse(route[i1..i2 + 1]) + route[i2 + 1..];
      SameEndsPermutation(route, r) && ReversedBetween(route, r, i1, i2)
  {
    var a, mid, c := route[..i1], route[i1..i2 + 1], route[i2 + 1..];
    ReversePermutes(a, mid, c);
    ReverseBlockAt(a, mid, c);
    assert route == a + mid + c;
  }

  lemma ReversePermutes(a: seq<int>, mid: seq<int>, c: seq<int>)
    requires |a| > 0 && |c| > 0
    ensures SameEndsPermutation(a + mid + c, a + Reverse(mid) + c)
  {
    var r := a + Reverse(mid) + c;
    assert multiset(r) == multiset(a) + multiset(Reverse(mid)) + multiset(c);
    assert multiset(a + mid + c) == multiset(a) + multiset(mid) + multiset(c);
    assert r[0] == a[0];
    assert r[|r| - 1] == c[|c| - 1];
  }

  lemma ReverseBlockAt(a: seq<int>, mid: seq<int>, c: seq<int>)
    requires |mid| > 0
    ensures ReversedBetween(a + mid + c, a + Reverse(mid) + c, |a|, |a| + |mid| - 1)
  {
    ReplacedBlock(a, mid, Reverse(mid), c);
  }

  /** Replacing a block by its reversal: positions inside mirror, positions outside stay. */
  lemma ReplacedBlock(a: seq<int>, mid: seq<int>, rm: seq<int>, c: seq<int>)
    requires |mid| > 0 && |rm| == |mid|
    requires forall k :: 0 <= k < |mid| ==> rm[k] == mid[|mid| - 1 - k]
    ensures ReversedBetween(a + mid + c, a + rm + c, |a|, |a| + |mid| - 1)
  {
  }

  /** deleteOneNode on one route: one interior entry is removed, the rest keeps its order. */
  function DeleteOneNode(route: seq<int>, raw: nat): (r: seq<int>)
    ensures |route| <= 3 ==> r == route
    ensures |route| > 3 ==> |r| == |route| - 1 && r[0] == route[0] && r[|r| - 1] == route[|route| - 1]
    ensures |route| > 3 ==> exists i :: 1 <= i < |route| - 1 && r == RemoveAt(route, i)
  {
    if |route| <= 3 then route
    else RemoveAt(route, GetRand(raw, |route| - 2) + 1)
  }

  /** The non-depot stations of a route. */
  function VisitedStations(route: seq<int>): set<int> {
    set x | x in route && x != 0
  }

  /** Stations 1..nbClients missing from the route, in increasing order. */
  function Absent(route: seq<int>, nbClients: nat): (a: seq<int>)
    ensures forall k :: 0 <= k < |a| ==> 1 <= a[k] <= nbClients && a[k] !in route
    ensures forall x :: 1 <= x <= nbClients && x !in route ==> x in a
  {
    if nbClients == 0 then []
    else Absent(route, nbClients - 1) + (if nbClients in route then [] else [nbClients])
  }

  /** The stations 1..n. */
  function Upto(n: nat): (r: set<int>)
    ensures |r| == n
    ensures forall x :: x in r <==> 1 <= x <= n
  {
    if n == 0 then {} else Upto(n - 1) + {n}
  }

  /** When the route holds station ids only and does not visit all nbClients stations, some station is absent. */
  lemma AbsentNonEmpty(route: seq<int>, nbClients: nat)
    requires forall k :: 0 <= k < |route| ==> 0 <= route[k] <= nbClients
    requires |VisitedStations(route)| != nbClients
    ensures |Absent(route, nbClients)| > 0
  {
    if |Absent(route, nbClients)| == 0 {
      NoneAbsentAllVisited(route, nbClients);
    }
  }

  lemma NoneAbsentAllVisited(route: seq<int>, nbClients: nat)
    requires forall k :: 0 <= k < |route| ==> 0 <= route[k] <= nbClients
    requires |Absent(route, nbClients)| == 0
    ensures VisitedStations(route) == Upto(nbClients)
  {
    forall x | 1 <= x <= nbClients ensures x in route {
    }
  }

  /**
   * insertOneNode on one route. A repairman route that already visits
   * nbClients stations is skipped; otherwise a route longer than 3 gets, at an
   * interior position, a station it does not visit (the outcome of the redraw
   * loop), provided that station has broken bikes. A truck route longer than 3
   * gets a station drawn from 0..nbClients whose usable stock differs from its
   * target (the depot's equal INT_MAX values keep it out). The truck branch
   * draws one value it discards (LocalSearch.cpp:296, 304).
   */
  function InsertOneNode(route: seq<int>, isRPM: bool, inst: Instance, nbClients: nat, raw1: nat, raw2: nat, raw3: nat): (r: seq<int>)
    requires |inst.networkInfo| == nbClients + 1
    requires forall k :: 0 <= k < |route| ==> 0 <= route[k] <= nbClients
    ensures |r| == |route| || |r| == |route| + 1
    ensures |r| == |route| ==> r == route
    ensures |route| <= 3 || (isRPM && |VisitedStations(route)| == nbClients) ==> r == route
    ensures |r| == |route| + 1 ==> exists i, x :: (1 <= i < |route| - 1 && r == InsertAt(route, i, x) &&
      1 <= x <= nbClients &&
      (isRPM ==> x !in route && inst.networkInfo[x].brokenBike != 0) &&
      (!isRPM ==> inst.networkInfo[x].usableBike != inst.networkInfo[x].targetUsable))
    ensures forall k :: 0 <= k < |r| ==> 0 <= r[k] <= nbClients
  {
    if isRPM && |VisitedStations(route)| == nbClients then route
    else if |route| <= 3 then route
    else
      var i := GetRand(raw1, |route| - 2) + 1;
      if isRPM then InsertForRepairman(route, inst, nbClients, i, raw2)
      else InsertForTruck(route, inst, nbClients, i, raw3)
  }

  /** The repairman branch of insertOneNode: a station absent from the route, inserted at `i` if it has broken bikes. */
  function InsertForRepairman(route: seq<int>, inst: Instance, nbClients: nat, i: int, raw: nat): (r: seq<int>)
    requires |inst.networkInfo| == nbClients + 1 && 1 <= i < |route| - 1
    requires forall k :: 0 <= k < |route| ==> 0 <= route[k] <= nbClients
    requires |VisitedStations(route)| != nbClients
    ensures r == route || exists x :: (1 <= x <= nbClients && x !in route && inst.networkInfo[x].brokenBike != 0 &&
      r == InsertAt(route, i, x))
    ensures forall k :: 0 <= k < |r| ==> 0 <= r[k] <= nbClients
  {
    AbsentNonEmpty(route, nbClients);
    var candidates := Absent(route, nbClients);
    var x := candidates[GetRand(raw, |candidates|)];
    if inst.networkInfo[x].brokenBike != 0 then InsertAt(route, i, x) else route
  }

  /** The truck branch of insertOneNode: a station drawn from 0..nbClients, inserted at `i` if its usable stock is off target. */
  function InsertForTruck(route: seq<int>, inst: Instance, nbClients: nat, i: int, raw: nat): (r: seq<int>)
    requires |inst.networkInfo| == nbClients + 1 && 1 <= i < |route| - 1
    requires forall k :: 0 <= k < |route| ==> 0 <= route[k] <= nbClients
    ensures r == route || exists x :: (1 <= x <= nbClients &&
      inst.networkInfo[x].usableBike != inst.networkInfo[x].targetUsable && r == InsertAt(route, i, x))
    ensures forall k :: 0 <= k < |r| ==> 0 <= r[k] <= nbClients
  {
    var x := GetRand(raw, nbClients + 1);
    if x != 0 && inst.networkInfo[x].usableBike != inst.networkInfo[x].targetUsable then InsertAt(route, i, x) else route
  }
}
