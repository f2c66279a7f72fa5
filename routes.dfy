/*
 * Route normalisation (helpers/Utils.cpp: combineTheConsecutiveDuplicateNode)
 * and the interior-depot stripping of repairman routes (Individual.cpp:42-46).
 * A route is a sequence of station ids; 0 is the depot.
 *
 * As written, the normalisation maps an all-depot route of three or more
 * entries, such as [0, 0, 0], to the one-entry route [0], although the code
 * after it reads the second entry of every route and leaves [0, 0] alone for
 * that reason. CombineAsWritten models the code as written and
 * CombineCollapsesAllDepotRoutes exhibits the collapse; CombineRoute is the
 * corrected normalisation, which keeps such a route as [0, 0], and is the one
 * the rest of the model uses.
 */
module Routes {

  /** No two neighbouring entries are equal. */
  predicate NoAdjacentDup(s: seq<int>) {
    forall k :: 0 <= k < |s| - 1 ==> s[k] != s[k + 1]
  }

  /** Every entry is the depot. */
  predicate AllDepot(s: seq<int>) {
    forall k :: 0 <= k < |s| ==> s[k] == 0
  }

  /** No depot strictly between the first and the last entry. */
  predicate NoInteriorDepot(s: seq<int>) {
    forall k :: 0 < k < |s| - 1 ==> s[k] != 0
  }

  /** Starts and ends at the depot. */
  predicate DepotEnded(s: seq<int>) {
    |s| >= 2 && s[0] == 0 && s[|s| - 1] == 0
  }

  /** std::unique: every run of equal neighbours collapses to one entry. */
  function Dedup(s: seq<int>): (r: seq<int>)
    ensures NoAdjacentDup(r)
    ensures |r| <= |s|
    ensures |s| > 0 ==> |r| > 0 && r[0] == s[0] && r[|r| - 1] == s[|s| - 1]
    ensures |s| == 0 ==> r == []
    ensures forall x :: x in r <==> x in s
  {
    if |s| <= 1 then s
    else
      var rest := Dedup(s[1..]);
      assert s == [s[0]] + s[1..];
      if s[0] == s[1] then rest else [s[0]] + rest
  }

  /** A sequence without equal neighbours is its own Dedup. */
  lemma {:induction false} DedupIdempotent(s: seq<int>)
    requires NoAdjacentDup(s)
    ensures Dedup(s) == s
  {
    if |s| > 1 {
      DedupIdempotent(s[1..]);
      assert s == [s[0]] + s[1..];
    }
  }

  /** n copies of x. */
  function Repeat(x: int, n: nat): seq<int> {
    if n == 0 then [] else [x] + Repeat(x, n - 1)
  }

  /** r with its j-th entry repeated c[j] times, in order. */
  function Expand(r: seq<int>, c: seq<nat>): seq<int>
    requires |c| == |r|
  {
    if |r| == 0 then [] else Repeat(r[0], c[0]) + Expand(r[1..], c[1..])
  }

  /** s is r with every entry repeated one or more times, in order. */
  ghost predicate Stutters(r: seq<int>, s: seq<int>) {
    exists c: seq<nat> :: |c| == |r| && (forall j :: 0 <= j < |c| ==> c[j] >= 1) && Expand(r, c) == s
  }

  /** One more repeat of the first entry puts one more copy of it in front. */
  lemma {:induction false} ExpandBump(r: seq<int>, c: seq<nat>)
    requires |c| == |r| > 0
    ensures Expand(r, [c[0] + 1] + c[1..]) == [r[0]] + Expand(r, c)
  {
    var c1 := [c[0] + 1] + c[1..];
    assert c1[1..] == c[1..];
  }

  /** One more copy of r's first entry in front of s. */
  lemma {:induction false} StuttersSame(r: seq<int>, s: seq<int>)
    requires Stutters(r, s) && |r| > 0
    ensures Stutters(r, [r[0]] + s)
  {
    var c :| |c| == |r| && (forall j :: 0 <= j < |c| ==> c[j] >= 1) && Expand(r, c) == s;
    ExpandBump(r, c);
    var c1 := [c[0] + 1] + c[1..];
    assert forall j :: 0 <= j < |c1| ==> c1[j] >= 1;
  }

  /** A new entry in front of both, repeated once. */
  lemma {:induction false} StuttersNew(x: int, r: seq<int>, s: seq<int>)
    requires Stutters(r, s)
    ensures Stutters([x] + r, [x] + s)
  {
    var c :| |c| == |r| && (forall j :: 0 <= j < |c| ==> c[j] >= 1) && Expand(r, c) == s;
    var c1 := [1] + c;
    assert ([x] + r)[1..] == r && c1[1..] == c;
    assert Repeat(x, 1) == [x];
    assert Expand([x] + r, c1) == [x] + s;
    assert forall j :: 0 <= j < |c1| ==> c1[j] >= 1;
  }

  /** The input is its Dedup with every entry repeated one or more times, in order. */
  lemma {:induction false} DedupStutters(s: seq<int>)
    ensures Stutters(Dedup(s), s)
  {
    if |s| == 0 {
      assert Expand([], []) == s;
    } else if |s| == 1 {
      assert Expand([], []) == [];
      StuttersNew(s[0], [], []);
      assert [s[0]] + [] == s;
    } else {
      DedupStutters(s[1..]);
      assert s == [s[0]] + s[1..];
      if s[0] == s[1] {
        StuttersSame(Dedup(s[1..]), s[1..]);
      } else {
        StuttersNew(s[0], Dedup(s[1..]), s[1..]);
      }
    }
  }

  /** Puts the depot in front and at the back when it is not there already. */
  function WithDepotEnds(s: seq<int>): (r: seq<int>)
    ensures |r| > 0 && r[0] == 0 && r[|r| - 1] == 0
    ensures forall x :: x in r <==> x in s || x == 0
  {
    var front := if |s| == 0 || s[0] != 0 then [0] + s else s;
    if front[|front| - 1] != 0 then front + [0] else front
  }

  /** Removes every depot strictly inside the route, keeping both ends (Individual.cpp:42-46, Utils.cpp:767-773). */
  function DropInteriorDepots(s: seq<int>): (r: seq<int>)
    requires |s| >= 2
    ensures |r| >= 2 && r[0] == s[0] && r[|r| - 1] == s[|s| - 1]
    ensures NoInteriorDepot(r)
    ensures forall x :: x != 0 ==> (x in r <==> x in s)
  {
    [s[0]] + NonDepots(s[1..|s| - 1]) + [s[|s| - 1]]
  }

  /** The entries of `s` that are not the depot, in order. */
  function NonDepots(s: seq<int>): (r: seq<int>)
    ensures |r| <= |s|
    ensures forall k :: 0 <= k < |r| ==> r[k] != 0
    ensures forall x :: x != 0 ==> (x in r <==> x in s)
  {
    if s == [] then []
    else
      assert s == [s[0]] + s[1..];
      (if s[0] == 0 then [] else [s[0]]) + NonDepots(s[1..])
  }

  /** Removes the entry at position i. */
  function RemoveAt(s: seq<int>, i: int): (r: seq<int>)
    requires 0 <= i < |s|
    ensures |r| == |s| - 1
    ensures multiset(r) + multiset{s[i]} == multiset(s)
    ensures forall k :: 0 <= k < i ==> r[k] == s[k]
    ensures forall k :: i <= k < |r| ==> r[k] == s[k + 1]
  {
    assert s == s[..i] + [s[i]] + s[i + 1..];
    s[..i] + s[i + 1..]
  }

  /** Inserts x before position i. */
  function InsertAt(s: seq<int>, i: int, x: int): (r: seq<int>)
    requires 0 <= i <= |s|
    ensures |r| == |s| + 1
    ensures multiset(r) == multiset(s) + multiset{x}
    ensures r[i] == x
    ensures forall k :: 0 <= k < i ==> r[k] == s[k]
    ensures forall k :: i < k < |r| ==> r[k] == s[k - 1]
  {
    assert s == s[..i] + s[i..];
    s[..i] + [x] + s[i..]
  }

  /** combineTheConsecutiveDuplicateNode on one route, as written (Utils.cpp:758-773). */
  function CombineAsWritten(route: seq<int>, isRPM: bool): (r: seq<int>)
    requires |route| >= 2
  {
    if route == [0, 0] then route
    else
      var ended := WithDepotEnds(Dedup(route));
      if isRPM && |ended| > 2 then DropInteriorDepots(ended) else ended
  }

  /** As written, a route of three or more depots collapses to [0]: one entry, although every later step reads two. */
  lemma CombineCollapsesAllDepotRoutes(isRPM: bool)
    ensures CombineAsWritten([0, 0, 0], isRPM) == [0]
  {
    var s := [0, 0, 0];
    assert Dedup(s[2..]) == [0];
    assert Dedup(s[1..]) == [0];
  }

  /** Exactly the all-depot routes of three or more entries collapse below two entries. */
  lemma {:induction false} CombineAsWrittenShort(route: seq<int>, isRPM: bool)
    requires |route| >= 2
    ensures |CombineAsWritten(route, isRPM)| < 2 <==> |route| >= 3 && AllDepot(route)
  {
    if route != [0, 0] {
      var d := Dedup(route);
      if AllDepot(route) {
        AllDepotDedup(route);
      } else {
        var k :| 0 <= k < |route| && route[k] != 0;
        assert route[k] in d;
        var w := WithDepotEnds(d);
        assert route[k] in w;
        assert |w| >= 2;
      }
    }
  }

  /** Dedup of a non-empty all-depot sequence is [0]. */
  lemma {:induction false} AllDepotDedup(s: seq<int>)
    requires |s| > 0 && AllDepot(s)
    ensures Dedup(s) == [0]
  {
    if |s| > 1 {
      AllDepotDedup(s[1..]);
    }
  }

  /**
   * The corrected normalisation: as written, except that a route that would
   * shrink below two entries is kept as [0, 0].
   */
  function CombineRoute(route: seq<int>, isRPM: bool): (r: seq<int>)
    requires |route| >= 2
    ensures DepotEnded(r)
    ensures route == [0, 0] ==> r == route
    ensures !isRPM ==> NoAdjacentDup(r) || r == [0, 0]
    ensures isRPM ==> NoInteriorDepot(r)
    ensures forall x :: x != 0 ==> (x in r <==> x in route)
  {
    var c := CombineAsWritten(route, isRPM);
    if |c| < 2 then [0, 0] else c
  }

  /**
   * Normalising a normalised truck route changes nothing. (Repairman routes
   * are not idempotent: dropping interior depots can make equal stations
   * neighbours, as in [0, 5, 0, 5, 0] -> [0, 5, 5, 0].)
   */
  lemma CombineTruckRouteIdempotent(route: seq<int>)
    requires |route| >= 2
    ensures CombineRoute(CombineRoute(route, false), false) == CombineRoute(route, false)
  {
    var r := CombineRoute(route, false);
    if r != [0, 0] {
      DedupIdempotent(r);
    }
  }

  /** Normalises every route of a chromosome in place (Utils.cpp:757-775). */
  method CombineRoutes(routes: seq<seq<int>>, isRPM: bool) returns (r: seq<seq<int>>)
    requires forall i :: 0 <= i < |routes| ==> |routes[i]| >= 2
    ensures |r| == |routes|
    ensures forall i :: 0 <= i < |r| ==> r[i] == CombineRoute(routes[i], isRPM)
  {
    r := routes;
    var i := 0;
    while i < |r|
      invariant 0 <= i <= |r| == |routes|
      invariant forall j :: 0 <= j < i ==> r[j] == CombineRoute(routes[j], isRPM)
      invariant forall j :: i <= j < |r| ==> r[j] == routes[j]
    {
      r := r[i := CombineRoute(r[i], isRPM)];
      i := i + 1;
    }
  }
}
