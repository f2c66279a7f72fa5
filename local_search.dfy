/*
 * The local search (LocalSearch.cpp): the route operators applied to every
 * route of a chromosome, the nine moves that rebuild a solution from its
 * moved routes, and the educating loop `run`.
 *
 * The random engine is the explicit stream of Random.Rng, threaded through
 * every operator in the order the program draws from it. A chromosome the
 * program edits in place is a value here, returned by each operator.
 */
module LocalSearch {
  import opened Random
  import opened Instances
  import opened Routes
  import opened RouteMoves
  import opened Schemes
  import opened Individuals

  /** One raw draw of the engine: what getRand reduces into its range. */
  method Draw(g: Rng) returns (raw: nat, g': Rng)
    ensures raw == g.stream(g.pos) && g' == Rng(g.stream, g.pos + 1)
  {
    raw, g' := Next(g).0, Next(g).1;
  }

  // ---------------------------------------------------------------------
  // What an operator does to one route
  // ---------------------------------------------------------------------

  /** A route of at most `short` entries is left alone; a longer one is permuted with both ends kept. */
  predicate Permuted(route: seq<int>, r: seq<int>, short: nat) {
    if |route| <= short then r == route else SameEndsPermutation(route, r)
  }

  /** A station insertOneNode may add: a repairman gets one with broken bikes, a truck one whose usable stock is off target. */
  predicate Insertable(inst: Instance, isRPM: bool, x: int) {
    && 1 <= x < |inst.networkInfo|
    && (if isRPM then inst.networkInfo[x].brokenBike != 0
        else inst.networkInfo[x].usableBike != inst.networkInfo[x].targetUsable)
  }

  /** `r` is `route` with stations inserted in its interior: nothing lost, ends kept, every new station insertable. */
  predicate Extends(route: seq<int>, r: seq<int>, inst: Instance, isRPM: bool) {
    && |r| >= |route| && multiset(route) <= multiset(r)
    && (|route| > 0 ==> r[0] == route[0] && r[|r| - 1] == route[|route| - 1])
    && (forall x :: x in r && x !in route ==> Insertable(inst, isRPM, x))
  }

  /** `r` is `route` with interior entries deleted: ends kept, and a route of three or more keeps at least three. */
  predicate Shrinks(route: seq<int>, r: seq<int>) {
    && |r| <= |route| && multiset(r) <= multiset(route)
    && (|route| <= 3 ==> r == route) && (|route| > 3 ==> |r| >= 3)
    && (|route| > 0 ==> |r| > 0 && r[0] == route[0] && r[|r| - 1] == route[|route| - 1])
  }

  lemma ExtendsTrans(a: seq<int>, b: seq<int>, c: seq<int>, inst: Instance, isRPM: bool)
    requires Extends(a, b, inst, isRPM) && Extends(b, c, inst, isRPM)
    ensures Extends(a, c, inst, isRPM)
  {
    forall x | x in c && x !in a ensures Insertable(inst, isRPM, x) {
      if x in b {
        assert Insertable(inst, isRPM, x);
      }
    }
  }

  lemma ShrinksTrans(a: seq<int>, b: seq<int>, c: seq<int>)
    requires Shrinks(a, b) && Shrinks(b, c)
    ensures Shrinks(a, c)
  {
  }

  /** A route of station ids stays one when it only gains stations it had or ids 1..nbClients. */
  lemma IdsByMembership(p: Params, route: seq<int>, r: seq<int>)
    requires RouteIds(p, route)
    requires forall x :: x in r ==> x in route || 1 <= x <= p.nbClients
    ensures RouteIds(p, r)
  {
    forall k | 0 <= k < |r| ensures IsStation(p, r[k]) {
      var x := r[k];
      if x in route {
        var j :| 0 <= j < |route| && route[j] == x;
      }
    }
  }

  // ---------------------------------------------------------------------
  // The operators over every route of a chromosome (LocalSearch.cpp:64-403)
  // ---------------------------------------------------------------------

  /** What swapTwoRandomElements does to one route: the single-route operator for some draws, a permutation keeping both ends. */
  ghost predicate SwapOutcome(route: seq<int>, r: seq<int>) {
    (exists a: nat, b: nat :: r == SwapTwoRandomElements(route, a, b)) && Permuted(route, r, 3)
  }

  lemma SwapStep(route: seq<int>, a: nat, b: nat)
    ensures SwapOutcome(route, SwapTwoRandomElements(route, a, b))
  {
  }

  /** swapTwoRandomElements (LocalSearch.cpp:66-80) on every route. */
  method SwapTwoRandomElementsAll(routes: seq<seq<int>>, g: Rng) returns (r: seq<seq<int>>, g': Rng)
    ensures |r| == |routes| && g'.stream == g.stream
    ensures forall i :: 0 <= i < |r| ==> SwapOutcome(routes[i], r[i])
  {
    r, g' := routes, g;
    for i := 0 to |r|
      invariant |r| == |routes| && g'.stream == g.stream
      invariant forall j :: 0 <= j < i ==> SwapOutcome(routes[j], r[j])
      invariant forall j :: i <= j < |r| ==> r[j] == routes[j]
    {
      var a, b := 0, 0;
      if |r[i]| > 3 {
        a, g' := Draw(g');
        b, g' := Draw(g');
      }
      var route := r[i];
      assert SwapOutcome(route, SwapTwoRandomElements(route, a, b)) by {
        SwapStep(route, a, b);
      }
      r := r[i := SwapTwoRandomElements(route, a, b)];
    }
  }

  /**
   * The cut points of swapTwoSubtours for a route with m interior entries:
   * i0 <= i1 < i2 <= i3, all in [1, m]. The program sorts four draws and
   * redraws the second until the middle two differ; this draws the two
   * middle points distinct first and the outer two on either side, which
   * reaches the same cut points (CutsCover).
   */
  function Cuts(m: nat, raw1: nat, raw2: nat, raw3: nat, raw4: nat): (c: (int, int, int, int))
    requires m >= 2
    ensures 1 <= c.0 <= c.1 < c.2 <= c.3 <= m
  {
    var a := GetRand(raw1, m) + 1;
    var b := PickOther(raw2, m, a);
    var i1 := if a < b then a else b;
    var i2 := if a < b then b else a;
    (GetRand(raw3, i1) + 1, i1, i2, i2 + GetRand(raw4, m - i2 + 1))
  }

  /** Every admissible choice of cut points is reached by some draws. */
  lemma CutsCover(m: nat, i0: int, i1: int, i2: int, i3: int)
    requires m >= 2 && 1 <= i0 <= i1 < i2 <= i3 <= m
    ensures exists raw1: nat, raw2: nat, raw3: nat, raw4: nat :: Cuts(m, raw1, raw2, raw3, raw4) == (i0, i1, i2, i3)
  {
    var raw1: nat, raw2: nat, raw3: nat, raw4: nat := i1 - 1, i2 - 2, i0 - 1, i3 - i2;
    GetRandBelow(raw1, m);
    GetRandBelow(raw2, m - 1);
    assert PickOther(raw2, m, i1) == i2;
    GetRandBelow(raw3, i1);
    GetRandBelow(raw4, m - i2 + 1);
    assert Cuts(m, raw1, raw2, raw3, raw4) == (i0, i1, i2, i3);
  }

  /** What swapTwoSubtours does to one route: unchanged up to four entries, else two blocks swapped at admissible cut points. */
  ghost predicate SubtoursOutcome(route: seq<int>, r: seq<int>) {
    && (|route| > 4 ==> exists i0, i1, i2, i3 :: 1 <= i0 <= i1 < i2 <= i3 <= |route| - 2 && r == SwapTwoSubtours(route, i0, i1, i2, i3))
    && Permuted(route, r, 4)
  }

  lemma SubtoursStep(route: seq<int>, i0: int, i1: int, i2: int, i3: int)
    requires |route| > 4 && 1 <= i0 <= i1 < i2 <= i3 <= |route| - 2
    ensures SubtoursOutcome(route, SwapTwoSubtours(route, i0, i1, i2, i3))
  {
  }

  /** swapTwoSubtours (LocalSearch.cpp:100-151) on every route. */
  method SwapTwoSubtoursAll(routes: seq<seq<int>>, g: Rng) returns (r: seq<seq<int>>, g': Rng)
    ensures |r| == |routes| && g'.stream == g.stream
    ensures forall i :: 0 <= i < |r| ==> SubtoursOutcome(routes[i], r[i])
  {
    r, g' := routes, g;
    for i := 0 to |r|
      invariant |r| == |routes| && g'.stream == g.stream
      invariant forall j :: 0 <= j < i ==> SubtoursOutcome(routes[j], r[j])
      invariant forall j :: i <= j < |r| ==> r[j] == routes[j]
    {
      var route := r[i];
      if |route| > 4 {
        var raw1, raw2, raw3, raw4;
        raw1, g' := Draw(g');
        raw2, g' := Draw(g');
        raw3, g' := Draw(g');
        raw4, g' := Draw(g');
        var c := Cuts(|route| - 2, raw1, raw2, raw3, raw4);
        assert SubtoursOutcome(route, SwapTwoSubtours(route, c.0, c.1, c.2, c.3)) by {
          SubtoursStep(route, c.0, c.1, c.2, c.3);
        }
        r := r[i := SwapTwoSubtours(route, c.0, c.1, c.2, c.3)];
      }
    }
  }

  /** What relocateOneNode does to one route: the single-route operator for some draws, a permutation keeping both ends. */
  ghost predicate RelocateOutcome(route: seq<int>, r: seq<int>) {
    (exists a: nat, b: nat :: r == RelocateOneNode(route, a, b)) && Permuted(route, r, 3)
  }

  lemma RelocateStep(route: seq<int>, a: nat, b: nat)
    ensures RelocateOutcome(route, RelocateOneNode(route, a, b))
  {
  }

  /** relocateOneNode (LocalSearch.cpp:166-186) on every route. */
  method RelocateOneNodeAll(routes: seq<seq<int>>, g: Rng) returns (r: seq<seq<int>>, g': Rng)
    ensures |r| == |routes| && g'.stream == g.stream
    ensures forall i :: 0 <= i < |r| ==> RelocateOutcome(routes[i], r[i])
  {
    r, g' := routes, g;
    for i := 0 to |r|
      invariant |r| == |routes| && g'.stream == g.stream
      invariant forall j :: 0 <= j < i ==> RelocateOutcome(routes[j], r[j])
      invariant forall j :: i <= j < |r| ==> r[j] == routes[j]
    {
      var moved;
      moved, g' := RelocateInRoute(r[i], g');
      r := r[i := moved];
    }
  }

  /** relocateOneNode's work on one route, drawing from the engine. */
  method RelocateInRoute(route: seq<int>, g: Rng) returns (r: seq<int>, g': Rng)
    ensures RelocateOutcome(route, r) && g'.stream == g.stream
  {
    var a, b := 0, 0;
    g' := g;
    if |route| > 3 {
      a, g' := Draw(g');
      b, g' := Draw(g');
    }
    r := RelocateOneNode(route, a, b);
    RelocateStep(route, a, b);
  }

  /** What relocateOneSubtour does to one route: the single-route operator for some draws, a permutation keeping both ends. */
  ghost predicate SubtourMoved(route: seq<int>, r: seq<int>) {
    (exists a: nat, b: nat, c: nat :: r == RelocateOneSubtour(route, a, b, c)) && Permuted(route, r, 4)
  }

  lemma SubtourMoveStep(route: seq<int>, a: nat, b: nat, c: nat)
    ensures SubtourMoved(route, RelocateOneSubtour(route, a, b, c))
  {
  }

  /** relocateOneSubtour (LocalSearch.cpp:201-232) on every route. */
  method RelocateOneSubtourAll(routes: seq<seq<int>>, g: Rng) returns (r: seq<seq<int>>, g': Rng)
    ensures |r| == |routes| && g'.stream == g.stream
    ensures forall i :: 0 <= i < |r| ==> SubtourMoved(routes[i], r[i])
  {
    r, g' := routes, g;
    for i := 0 to |r|
      invariant |r| == |routes| && g'.stream == g.stream
      invariant forall j :: 0 <= j < i ==> SubtourMoved(routes[j], r[j])
      invariant forall j :: i <= j < |r| ==> r[j] == routes[j]
    {
      var a, b, c := 0, 0, 0;
      if |r[i]| > 4 {
        a, g' := Draw(g');
        b, g' := Draw(g');
        c, g' := Draw(g');
      }
      var route := r[i];
      assert SubtourMoved(route, RelocateOneSubtour(route, a, b, c)) by {
        SubtourMoveStep(route, a, b, c);
      }
      r := r[i := RelocateOneSubtour(route, a, b, c)];
    }
  }

  /** What reverseOneSubtour does to one route: the single-route operator for some draws, a permutation keeping both ends. */
  ghost predicate ReverseOutcome(route: seq<int>, r: seq<int>) {
    (exists a: nat, b: nat :: r == ReverseOneSubtour(route, a, b)) && Permuted(route, r, 3)
  }

  lemma ReverseStep(route: seq<int>, a: nat, b: nat)
    ensures ReverseOutcome(route, ReverseOneSubtour(route, a, b))
  {
  }

  /** reverseOneSubtour (LocalSearch.cpp:246-263) on every route. */
  method ReverseOneSubtourAll(routes: seq<seq<int>>, g: Rng) returns (r: seq<seq<int>>, g': Rng)
    ensures |r| == |routes| && g'.stream == g.stream
    ensures forall i :: 0 <= i < |r| ==> ReverseOutcome(routes[i], r[i])
  {
    r, g' := routes, g;
    for i := 0 to |r|
      invariant |r| == |routes| && g'.stream == g.stream
      invariant forall j :: 0 <= j < i ==> ReverseOutcome(routes[j], r[j])
      invariant forall j :: i <= j < |r| ==> r[j] == routes[j]
    {
      var a, b := 0, 0;
      if |r[i]| > 3 {
        a, g' := Draw(g');
        b, g' := Draw(g');
      }
      var route := r[i];
      assert ReverseOutcome(route, ReverseOneSubtour(route, a, b)) by {
        ReverseStep(route, a, b);
      }
      r := r[i := ReverseOneSubtour(route, a, b)];
    }
  }

  /** What insertOneNode does to one route: the single-route operator for some draws, extending the route by at most one insertable station. */
  ghost predicate InsertOutcome(p: Params, route: seq<int>, r: seq<int>, inst: Instance, isRPM: bool)
    requires |inst.networkInfo| == p.nbClients + 1 && RouteIds(p, route)
  {
    && (exists a: nat, b: nat, c: nat :: r == InsertOneNode(route, isRPM, inst, p.nbClients, a, b, c))
    && Extends(route, r, inst, isRPM) && |r| <= |route| + 1 && RouteIds(p, r)
  }

  lemma InsertStep(p: Params, route: seq<int>, isRPM: bool, inst: Instance, a: nat, b: nat, c: nat)
    requires |inst.networkInfo| == p.nbClients + 1 && RouteIds(p, route)
    ensures InsertOutcome(p, route, InsertOneNode(route, isRPM, inst, p.nbClients, a, b, c), inst, isRPM)
  {
    var r := InsertOneNode(route, isRPM, inst, p.nbClients, a, b, c);
    assert RouteIds(p, r) by {
      forall k | 0 <= k < |r| ensures IsStation(p, r[k]) {
        assert 0 <= r[k] <= p.nbClients;
      }
    }
    if |r| == |route| + 1 {
      var i, x :| 1 <= i < |route| - 1 && r == InsertAt(route, i, x) && 1 <= x <= p.nbClients &&
        (isRPM ==> x !in route && inst.networkInfo[x].brokenBike != 0) &&
        (!isRPM ==> inst.networkInfo[x].usableBike != inst.networkInfo[x].targetUsable);
      assert Extends(route, r, inst, isRPM) by {
        assert Insertable(inst, isRPM, x);
        InsertedAt(route, i, x, inst, isRPM);
      }
    } else {
      assert r == route;
    }
    assert |r| <= |route| + 1;
    assert exists a': nat, b': nat, c': nat :: r == InsertOneNode(route, isRPM, inst, p.nbClients, a', b', c');
  }

  /** Inserting an insertable station at an interior position extends the route. */
  lemma InsertedAt(route: seq<int>, i: int, x: int, inst: Instance, isRPM: bool)
    requires 1 <= i < |route| - 1 && Insertable(inst, isRPM, x)
    ensures Extends(route, InsertAt(route, i, x), inst, isRPM)
  {
    var r := InsertAt(route, i, x);
    assert r[0] == route[0];
    assert r[|r| - 1] == route[|route| - 1];
    forall y | y in r && y !in route ensures y == x {
      assert multiset(r)[y] == multiset(route)[y] + multiset{x}[y];
    }
  }

  /** insertOneNode (LocalSearch.cpp:280-311) on every route. */
  method InsertOneNodeAll(p: Params, routes: seq<seq<int>>, isRPM: bool, inst: Instance, g: Rng)
    returns (r: seq<seq<int>>, g': Rng)
    requires |inst.networkInfo| == p.nbClients + 1
    requires forall i :: 0 <= i < |routes| ==> RouteIds(p, routes[i])
    ensures |r| == |routes| && g'.stream == g.stream
    ensures forall i :: 0 <= i < |r| ==> InsertOutcome(p, routes[i], r[i], inst, isRPM)
  {
    r, g' := routes, g;
    for i := 0 to |r|
      invariant |r| == |routes| && g'.stream == g.stream
      invariant forall j :: 0 <= j < i ==> InsertOutcome(p, routes[j], r[j], inst, isRPM)
      invariant forall j :: i <= j < |r| ==> r[j] == routes[j]
    {
      var route := r[i];
      assert route == routes[i] && RouteIds(p, route);
      var a, b, c := 0, 0, 0;
      var full := isRPM && |VisitedStations(route)| == p.nbClients;
      if !full && |route| > 3 {
        a, g' := Draw(g');
        b, g' := Draw(g');
        if !isRPM {
          c, g' := Draw(g');
        }
      }
      assert InsertOutcome(p, route, InsertOneNode(route, isRPM, inst, p.nbClients, a, b, c), inst, isRPM) by {
        InsertStep(p, route, isRPM, inst, a, b, c);
      }
      r := r[i := InsertOneNode(route, isRPM, inst, p.nbClients, a, b, c)];
    }
  }

  /**
   * insertMultipleNodes (LocalSearch.cpp:328-340): for each route of three or
   * more entries a count in [1, |route| - 2] is drawn and insertOneNode is
   * applied that many times to the whole chromosome, not to that route alone.
   */
  method InsertMultipleNodes(p: Params, routes: seq<seq<int>>, isRPM: bool, inst: Instance, g: Rng)
    returns (r: seq<seq<int>>, g': Rng)
    requires |inst.networkInfo| == p.nbClients + 1
    requires forall i :: 0 <= i < |routes| ==> RouteIds(p, routes[i])
    ensures |r| == |routes| && g'.stream == g.stream
    ensures forall i :: 0 <= i < |r| ==> Extends(routes[i], r[i], inst, isRPM) && RouteIds(p, r[i])
  {
    r, g' := routes, g;
    for i := 0 to |r|
      invariant |r| == |routes| && g'.stream == g.stream
      invariant forall j :: 0 <= j < |r| ==> Extends(routes[j], r[j], inst, isRPM) && RouteIds(p, r[j])
    {
      if |r[i]| >= 3 {
        var raw;
        raw, g' := Draw(g');
        var numNodes := GetRand(raw, |r[i]| - 2) + 1;
        for t := 0 to numNodes
          invariant |r| == |routes| && g'.stream == g.stream
          invariant forall j :: 0 <= j < |r| ==> Extends(routes[j], r[j], inst, isRPM) && RouteIds(p, r[j])
        {
          var r';
          r', g' := InsertOneNodeAll(p, r, isRPM, inst, g');
          forall j | 0 <= j < |r| ensures Extends(routes[j], r'[j], inst, isRPM) && RouteIds(p, r'[j]) {
            assert InsertOutcome(p, r[j], r'[j], inst, isRPM);
            ExtendsTrans(routes[j], r[j], r'[j], inst, isRPM);
          }
          r := r';
        }
      }
    }
  }

  /** What deleteOneNode does to one route: the single-route operator for some draw, losing at most one interior entry. */
  ghost predicate DeleteOutcome(route: seq<int>, r: seq<int>) {
    (exists a: nat :: r == DeleteOneNode(route, a)) && Shrinks(route, r) && |r| >= |route| - 1
  }

  lemma DeleteStep(route: seq<int>, a: nat)
    ensures DeleteOutcome(route, DeleteOneNode(route, a))
  {
    if |route| > 3 {
      var k :| 1 <= k < |route| - 1 && DeleteOneNode(route, a) == RemoveAt(route, k);
    }
  }

  /** deleteOneNode (LocalSearch.cpp:356-363) on every route: each route of more than three entries loses one interior entry. */
  method DeleteOneNodeAll(routes: seq<seq<int>>, g: Rng) returns (r: seq<seq<int>>, g': Rng)
    ensures |r| == |routes| && g'.stream == g.stream
    ensures forall i :: 0 <= i < |r| ==> DeleteOutcome(routes[i], r[i])
  {
    r, g' := routes, g;
    for i := 0 to |r|
      invariant |r| == |routes| && g'.stream == g.stream
      invariant forall j :: 0 <= j < i ==> DeleteOutcome(routes[j], r[j])
      invariant forall j :: i <= j < |r| ==> r[j] == routes[j]
    {
      var shorter;
      shorter, g' := DeleteInRoute(r[i], g');
      r := r[i := shorter];
    }
  }

  /** deleteOneNode's work on one route, drawing from the engine. */
  method DeleteInRoute(route: seq<int>, g: Rng) returns (r: seq<int>, g': Rng)
    ensures DeleteOutcome(route, r) && g'.stream == g.stream
  {
    var a := 0;
    g' := g;
    if |route| > 3 {
      a, g' := Draw(g');
    }
    r := DeleteOneNode(route, a);
    DeleteStep(route, a);
  }

  /**
   * deleteMultipleNodes (LocalSearch.cpp:380-391): for each route of three or
   * more entries a count in [1, |route| - 2] is drawn and deleteOneNode is
   * applied that many times to the whole chromosome.
   */
  method DeleteMultipleNodes(routes: seq<seq<int>>, g: Rng) returns (r: seq<seq<int>>, g': Rng)
    ensures |r| == |routes| && g'.stream == g.stream
    ensures forall i :: 0 <= i < |r| ==> Shrinks(routes[i], r[i])
  {
    r, g' := routes, g;
    for i := 0 to |r|
      invariant |r| == |routes| && g'.stream == g.stream
      invariant forall j :: 0 <= j < |r| ==> Shrinks(routes[j], r[j])
    {
      if |r[i]| >= 3 {
        var raw;
        raw, g' := Draw(g');
        var numNodes := GetRand(raw, |r[i]| - 2) + 1;
        for t := 0 to numNodes
          invariant |r| == |routes| && g'.stream == g.stream
          invariant forall j :: 0 <= j < |r| ==> Shrinks(routes[j], r[j])
        {
          var r';
          r', g' := DeleteOneNodeAll(r, g');
          forall j | 0 <= j < |r| ensures Shrinks(routes[j], r'[j]) {
            assert DeleteOutcome(r[j], r'[j]);
            ShrinksTrans(routes[j], r[j], r'[j]);
          }
          r := r';
        }
      }
    }
  }

  // ---------------------------------------------------------------------
  // The nine moves (move_1 .. move_9)
  // ---------------------------------------------------------------------

  /** What move k does to one route of the given kind. */
  predicate Moved(k: int, inst: Instance, isRPM: bool, route: seq<int>, r: seq<int>) {
    if k == 1 || k == 3 || k == 5 then Permuted(route, r, 3)
    else if k == 2 || k == 4 then Permuted(route, r, 4)
    else if k == 6 then Extends(route, r, inst, isRPM) && |r| <= |route| + 1
    else if k == 7 then Extends(route, r, inst, isRPM)
    else if k == 8 then Shrinks(route, r) && |r| >= |route| - 1
    else Shrinks(route, r)
  }

  /** Every move keeps a route of at least two station ids one. */
  lemma MovedOk(p: Params, inst: Instance, k: int, isRPM: bool, route: seq<int>, r: seq<int>)
    requires |inst.networkInfo| == p.nbClients + 1
    requires |route| >= 2 && RouteIds(p, route) && Moved(k, inst, isRPM, route, r)
    requires k == 6 || k == 7 ==> RouteIds(p, r)
    ensures |r| >= 2 && RouteIds(p, r)
  {
    if k != 6 && k != 7 {
      forall x | x in r ensures x in route {
        assert x in multiset(r);
      }
      IdsByMembership(p, route, r);
    }
  }

  /** A chromosome whose routes all satisfy `Moved` from routes of at least two station ids. */
  lemma MovedAllOk(p: Params, inst: Instance, k: int, isRPM: bool, routes: seq<seq<int>>, r: seq<seq<int>>)
    requires |inst.networkInfo| == p.nbClients + 1 && |r| == |routes|
    requires forall i :: 0 <= i < |routes| ==> |routes[i]| >= 2 && RouteIds(p, routes[i])
    requires forall i :: 0 <= i < |routes| ==> Moved(k, inst, isRPM, routes[i], r[i])
    requires k == 6 || k == 7 ==> forall i :: 0 <= i < |r| ==> RouteIds(p, r[i])
    ensures forall i :: 0 <= i < |r| ==> |r[i]| >= 2 && RouteIds(p, r[i])
  {
    forall i | 0 <= i < |r| ensures |r[i]| >= 2 && RouteIds(p, r[i]) {
      MovedOk(p, inst, k, isRPM, routes[i], r[i]);
    }
  }

  /** The operator of move k applied to one chromosome (LocalSearch.cpp:82-403). */
  method MoveRoutes(p: Params, inst: Instance, k: int, isRPM: bool, routes: seq<seq<int>>, g: Rng)
    returns (r: seq<seq<int>>, g': Rng)
    requires |inst.networkInfo| == p.nbClients + 1 && 1 <= k <= 9
    requires forall i :: 0 <= i < |routes| ==> |routes[i]| >= 2 && RouteIds(p, routes[i])
    ensures |r| == |routes| && g'.stream == g.stream
    ensures forall i :: 0 <= i < |r| ==> Moved(k, inst, isRPM, routes[i], r[i])
    ensures forall i :: 0 <= i < |r| ==> |r[i]| >= 2 && RouteIds(p, r[i])
  {
    if k == 1 {
      r, g' := SwapTwoRandomElementsAll(routes, g);
    } else if k == 2 {
      r, g' := SwapTwoSubtoursAll(routes, g);
    } else if k == 3 {
      r, g' := RelocateOneNodeAll(routes, g);
    } else if k == 4 {
      r, g' := RelocateOneSubtourAll(routes, g);
    } else if k == 5 {
      r, g' := ReverseOneSubtourAll(routes, g);
    } else if k == 6 {
      r, g' := InsertOneNodeAll(p, routes, isRPM, inst, g);
    } else if k == 7 {
      r, g' := InsertMultipleNodes(p, routes, isRPM, inst, g);
    } else if k == 8 {
      r, g' := DeleteOneNodeAll(routes, g);
    } else {
      r, g' := DeleteMultipleNodes(routes, g);
    }
    MovedAllOk(p, inst, k, isRPM, routes, r);
  }

  /**
   * move_k: both chromosomes are copied, the repairman routes moved as
   * repairman routes and the truck routes as truck routes, and a new
   * solution is built from them with the route-given constructor. `rpm` and
   * `trk` are the moved chromosomes the new solution is built from.
   */
  method Move(p: Params, inst: Instance, penaltyCapacity: real, k: int, indiv: Individual, g: Rng)
    returns (indiv': Individual, g': Rng, ghost rpm: seq<seq<int>>, ghost trk: seq<seq<int>>)
    requires ValidParams(p) && ValidInstance(inst, p) && InitialStockOk(inst, p) && 1 <= k <= 9
    requires ChromosomesOk(p, indiv.chromRPM, indiv.chromTRK)
    ensures g'.stream == g.stream
    ensures |rpm| == |indiv.chromRPM| && forall i :: 0 <= i < |rpm| ==> Moved(k, inst, true, indiv.chromRPM[i], rpm[i])
    ensures |trk| == |indiv.chromTRK| && forall i :: 0 <= i < |trk| ==> Moved(k, inst, false, indiv.chromTRK[i], trk[i])
    ensures |indiv'.chromRPM| == |rpm| && forall i :: 0 <= i < |rpm| ==> RouteFrom(p, rpm[i], indiv'.chromRPM[i])
    ensures |indiv'.chromTRK| == |trk| && forall i :: 0 <= i < |trk| ==> RouteFrom(p, trk[i], indiv'.chromTRK[i])
    ensures ChromosomesOk(p, indiv'.chromRPM, indiv'.chromTRK) && Evaluated(p, indiv'.eval, penaltyCapacity)
  {
    var r, t;
    r, g' := MoveRoutes(p, inst, k, true, indiv.chromRPM, g);
    t, g' := MoveRoutes(p, inst, k, false, indiv.chromTRK, g');
    indiv' := IndividualFromRoutes(p, inst, penaltyCapacity, r, t);
    rpm, trk := r, t;
  }

  /** Move k turned `indiv` into `out`: its routes moved as Moved says, rebuilt and evaluated. */
  ghost predicate MovedVia(p: Params, inst: Instance, penaltyCapacity: real, k: int, indiv: Individual, out: Individual,
                           rpm: seq<seq<int>>, trk: seq<seq<int>>) {
    && |rpm| == |indiv.chromRPM| && (forall i :: 0 <= i < |rpm| ==> Moved(k, inst, true, indiv.chromRPM[i], rpm[i]))
    && |trk| == |indiv.chromTRK| && (forall i :: 0 <= i < |trk| ==> Moved(k, inst, false, indiv.chromTRK[i], trk[i]))
    && |out.chromRPM| == |rpm| && (forall i :: 0 <= i < |rpm| ==> RouteFrom(p, rpm[i], out.chromRPM[i]))
    && |out.chromTRK| == |trk| && (forall i :: 0 <= i < |trk| ==> RouteFrom(p, trk[i], out.chromTRK[i]))
    && ChromosomesOk(p, out.chromRPM, out.chromTRK) && Evaluated(p, out.eval, penaltyCapacity)
  }

  /** `out` is a possible result of move k on `indiv`. */
  ghost predicate MoveResult(p: Params, inst: Instance, penaltyCapacity: real, k: int, indiv: Individual, out: Individual) {
    exists rpm, trk :: MovedVia(p, inst, penaltyCapacity, k, indiv, out, rpm, trk)
  }

  // ---------------------------------------------------------------------
  // The educating loop (LocalSearch.cpp:15-62)
  // ---------------------------------------------------------------------

  /** The state of the repetition after an improving move: the best solution so far, the misses in a row and the rounds run. */
  datatype Repeat = Repeat(best: Individual, misses: int, count: int)

  /** The repetition goes on while fewer than itEDU misses in a row and fewer than 1000 rounds have happened. */
  predicate Going(s: Repeat, itEDU: int) {
    s.misses < itEDU && s.count < 1000
  }

  /** One round: a trial no better than the best is a miss, a strictly better one becomes the best and resets the misses. */
  function RepeatStep(s: Repeat, trial: Individual): (s': Repeat)
    ensures s'.count == s.count + 1
    ensures s'.best.eval.objVal <= s.best.eval.objVal && s'.best.eval.objVal <= trial.eval.objVal
    ensures s'.best == s.best || s'.best == trial
    ensures s'.misses == 0 || s'.misses == s.misses + 1
  {
    if trial.eval.objVal >= s.best.eval.objVal then Repeat(s.best, s.misses + 1, s.count + 1)
    else Repeat(trial, 0, s.count + 1)
  }

  /** The state after the rounds with the given trials, in order. */
  function RepeatRun(s: Repeat, trials: seq<Individual>): (s': Repeat)
  {
    if |trials| == 0 then s else RepeatStep(RepeatRun(s, trials[..|trials| - 1]), trials[|trials| - 1])
  }

  lemma RepeatRunSnoc(s: Repeat, trials: seq<Individual>, trial: Individual)
    ensures RepeatRun(s, trials + [trial]) == RepeatStep(RepeatRun(s, trials), trial)
  {
    assert (trials + [trial])[..|trials|] == trials;
  }

  /** After the rounds, the best is the start's best or one of the trials, it is no worse than any of them, and one round was counted per trial. */
  lemma {:induction false} RepeatRunBest(s: Repeat, trials: seq<Individual>)
    ensures RepeatRun(s, trials).count == s.count + |trials|
    ensures RepeatRun(s, trials).best == s.best || RepeatRun(s, trials).best in trials
    ensures RepeatRun(s, trials).best.eval.objVal <= s.best.eval.objVal
    ensures forall i :: 0 <= i < |trials| ==> RepeatRun(s, trials).best.eval.objVal <= trials[i].eval.objVal
    decreases |trials|
  {
    if |trials| > 0 {
      var front := trials[..|trials| - 1];
      RepeatRunBest(s, front);
      forall i | 0 <= i < |trials| - 1
        ensures trials[i] == front[i]
      {
      }
    }
  }

  /** Rounds whose trial is always the starting solution keep it and count every round as a miss. */
  lemma {:induction false} IdleRepeatKeeps(e: Individual, n: nat)
    ensures RepeatRun(Repeat(e, 0, 0), seq(n, _ => e)) == Repeat(e, n, n)
  {
    if n > 0 {
      IdleRepeatKeeps(e, n - 1);
      assert seq(n, _ => e)[..n - 1] == seq(n - 1, _ => e);
    }
  }

  /**
   * The discrepancy of the repetition as written: when move k turns the
   * improved solution e into a strictly better t, a round whose trial is t
   * makes t the best, while the program's round, whose trial is e again,
   * keeps e and counts a miss.
   */
  lemma AsWrittenMissesImprovement(e: Individual, t: Individual)
    requires t.eval.objVal < e.eval.objVal
    ensures RepeatRun(Repeat(e, 0, 0), [t]) == Repeat(t, 0, 1)
    ensures RepeatRun(Repeat(e, 0, 0), [e]) == Repeat(e, 1, 1)
  {
    assert [t][..0] == [] && [e][..0] == [];
  }

  /**
   * The repetition as the program runs it: each round performs move k on
   * the improved solution and discards the result, so the round's trial is
   * that solution itself. It runs min(itEDU, 1000) rounds, drawing from the
   * engine, and returns the improved solution unchanged.
   */
  method RepeatAsWritten(p: Params, inst: Instance, penaltyCapacity: real, k: int, educated: Individual, g: Rng)
    returns (best: Individual, g': Rng, s: Repeat)
    requires ValidParams(p) && ValidInstance(inst, p) && InitialStockOk(inst, p) && 1 <= k <= 9
    requires ChromosomesOk(p, educated.chromRPM, educated.chromTRK)
    ensures g'.stream == g.stream
    ensures 0 <= s.count <= 1000 && s == RepeatRun(Repeat(educated, 0, 0), seq(s.count, _ => educated)) && best == s.best && !Going(s, p.itEDU)
    ensures best == educated && s.count == (if p.itEDU <= 0 then 0 else if p.itEDU < 1000 then p.itEDU else 1000)
  {
    s, g' := Repeat(educated, 0, 0), g;
    while Going(s, p.itEDU)
      invariant g'.stream == g.stream
      invariant 0 <= s.count <= 1000 && s == Repeat(educated, s.count, s.count)
      invariant s.count <= p.itEDU || s.count == 0
      decreases 1000 - s.count
    {
      var discarded; ghost var rpm, trk;
      discarded, g', rpm, trk := Move(p, inst, penaltyCapacity, k, educated, g');
      s := RepeatStep(s, educated);
    }
    best := s.best;
    IdleRepeatKeeps(educated, s.count);
  }

  /**
   * The repetition as intended: each round performs move k on the latest
   * trial and keeps the result as the next trial; a strictly better trial
   * becomes the best. The trials form a chain of moves from the improved
   * solution, and the result is the best of them.
   */
  method RepeatImproving(p: Params, inst: Instance, penaltyCapacity: real, k: int, educated: Individual, g: Rng)
    returns (best: Individual, g': Rng, ghost chain: seq<Individual>, s: Repeat)
    requires ValidParams(p) && ValidInstance(inst, p) && InitialStockOk(inst, p) && 1 <= k <= 9
    requires ChromosomesOk(p, educated.chromRPM, educated.chromTRK)
    ensures g'.stream == g.stream
    ensures s == RepeatRun(Repeat(educated, 0, 0), chain) && best == s.best && !Going(s, p.itEDU)
    ensures |chain| == s.count <= 1000 && MoveChain(p, inst, penaltyCapacity, k, educated, chain)
    ensures best.eval.objVal <= educated.eval.objVal && forall i :: 0 <= i < |chain| ==> best.eval.objVal <= chain[i].eval.objVal
    ensures ChromosomesOk(p, best.chromRPM, best.chromTRK)
    ensures best == educated || Evaluated(p, best.eval, penaltyCapacity)
  {
    s, g' := Repeat(educated, 0, 0), g;
    chain := [];
    var current := educated;
    while Going(s, p.itEDU)
      invariant g'.stream == g.stream
      invariant s == RepeatRun(Repeat(educated, 0, 0), chain) && |chain| == s.count <= 1000
      invariant current == if |chain| == 0 then educated else chain[|chain| - 1]
      invariant ChromosomesOk(p, current.chromRPM, current.chromTRK)
      invariant AllEvaluated(p, penaltyCapacity, chain) && MoveChain(p, inst, penaltyCapacity, k, educated, chain)
      decreases 1000 - s.count
    {
      var trial; ghost var rpm, trk;
      trial, g', rpm, trk := Move(p, inst, penaltyCapacity, k, current, g');
      assert MoveChain(p, inst, penaltyCapacity, k, educated, chain + [trial]) by {
        assert MovedVia(p, inst, penaltyCapacity, k, current, trial, rpm, trk);
        MoveChainSnoc(p, inst, penaltyCapacity, k, educated, chain, trial);
      }
      assert RepeatRun(Repeat(educated, 0, 0), chain + [trial]) == RepeatStep(s, trial) by {
        RepeatRunSnoc(Repeat(educated, 0, 0), chain, trial);
        RepeatRunBest(Repeat(educated, 0, 0), chain);
      }
      s := RepeatStep(s, trial);
      chain := chain + [trial];
      current := trial;
    }
    best := s.best;
    RepeatRunBest(Repeat(educated, 0, 0), chain);
  }

  /** Each trial of the chain is a result of move k on the one before it, the first on `start`. */
  ghost predicate MoveChain(p: Params, inst: Instance, penaltyCapacity: real, k: int, start: Individual, chain: seq<Individual>) {
    && (|chain| > 0 ==> MoveResult(p, inst, penaltyCapacity, k, start, chain[0]))
    && forall i :: 0 < i < |chain| ==> MoveResult(p, inst, penaltyCapacity, k, chain[i - 1], chain[i])
  }

  /** Every solution of the list has well-formed routes and a consistent evaluation. */
  ghost predicate AllEvaluated(p: Params, penaltyCapacity: real, chain: seq<Individual>) {
    forall i :: 0 <= i < |chain| ==> ChromosomesOk(p, chain[i].chromRPM, chain[i].chromTRK) && Evaluated(p, chain[i].eval, penaltyCapacity)
  }

  lemma MoveChainSnoc(p: Params, inst: Instance, penaltyCapacity: real, k: int, start: Individual, chain: seq<Individual>, trial: Individual)
    requires MoveChain(p, inst, penaltyCapacity, k, start, chain)
    requires MoveResult(p, inst, penaltyCapacity, k, if |chain| == 0 then start else chain[|chain| - 1], trial)
    ensures MoveChain(p, inst, penaltyCapacity, k, start, chain + [trial])
  {
  }

  /** The nine moves, by number. */
  const AllMoves: seq<int> := [1, 2, 3, 4, 5, 6, 7, 8, 9]

  predicate Distinct(s: seq<int>) {
    forall a, b :: 0 <= a < b < |s| ==> s[a] != s[b]
  }

  /**
   * run (LocalSearch.cpp:15-62): tries the moves in random order, each on
   * the given solution, until one strictly improves it; that move is then
   * repeated on the improvement (RepeatImproving) and the best found is the
   * result. When no move improves, the solution is kept.
   */
  method Run(p: Params, inst: Instance, penaltyCapacity: real, indiv: Individual, g: Rng)
    returns (indiv': Individual, g': Rng, ghost tried: seq<int>, ghost results: seq<Individual>)
    requires ValidParams(p) && ValidInstance(inst, p) && InitialStockOk(inst, p)
    requires ChromosomesOk(p, indiv.chromRPM, indiv.chromTRK)
    ensures g'.stream == g.stream
    ensures |results| == |tried| <= 9 && Distinct(tried)
    ensures forall j :: 0 <= j < |tried| ==> 1 <= tried[j] <= 9 && MoveResult(p, inst, penaltyCapacity, tried[j], indiv, results[j])
    ensures forall j :: 0 <= j < |tried| - 1 ==> results[j].eval.objVal >= indiv.eval.objVal
    ensures ChromosomesOk(p, indiv'.chromRPM, indiv'.chromTRK)
    ensures || (indiv' == indiv && (forall j :: 0 <= j < |results| ==> results[j].eval.objVal >= indiv.eval.objVal)
                && forall k :: 1 <= k <= 9 ==> k in tried)
            || (|tried| > 0 && results[|tried| - 1].eval.objVal < indiv.eval.objVal
                && indiv'.eval.objVal <= results[|tried| - 1].eval.objVal && Evaluated(p, indiv'.eval, penaltyCapacity))
  {
    var moves := AllMoves;
    indiv', g', tried, results := indiv, g, [], [];
    while |moves| > 0
      invariant g'.stream == g.stream && indiv' == indiv
      invariant Distinct(moves) && Distinct(tried) && |results| == |tried| && |tried| + |moves| == 9
      invariant forall x :: x in moves <==> 1 <= x <= 9 && x !in tried
      invariant forall j :: 0 <= j < |tried| ==> 1 <= tried[j] <= 9 && MoveResult(p, inst, penaltyCapacity, tried[j], indiv, results[j])
      invariant forall j :: 0 <= j < |results| ==> results[j].eval.objVal >= indiv.eval.objVal
      decreases |moves|
    {
      var raw;
      raw, g' := Draw(g');
      var index := GetRand(raw, |moves|);
      var k := moves[index];
      assert k in moves;
      var educated; ghost var rpm, trk;
      educated, g', rpm, trk := Move(p, inst, penaltyCapacity, k, indiv, g');
      assert MoveResult(p, inst, penaltyCapacity, k, indiv, educated) by {
        assert MovedVia(p, inst, penaltyCapacity, k, indiv, educated, rpm, trk);
      }
      RemoveDistinct(moves, index);
      AppendDistinct(tried, k);
      moves := moves[..index] + moves[index + 1..];
      tried, results := tried + [k], results + [educated];
      if educated.eval.objVal < indiv.eval.objVal {
        ghost var chain;
        var s;
        indiv', g', chain, s := RepeatImproving(p, inst, penaltyCapacity, k, educated, g');
        return;
      }
    }
  }

  /** Removing one entry of a duplicate-free list leaves exactly the others. */
  lemma RemoveDistinct(moves: seq<int>, index: int)
    requires Distinct(moves) && 0 <= index < |moves|
    ensures Distinct(moves[..index] + moves[index + 1..])
    ensures forall x :: x in moves[..index] + moves[index + 1..] <==> x in moves && x != moves[index]
  {
    var rest := moves[..index] + moves[index + 1..];
    forall x | x in moves && x != moves[index]
      ensures x in rest
    {
      var i :| 0 <= i < |moves| && moves[i] == x;
      if i < index { assert rest[i] == x; } else { assert rest[i - 1] == x; }
    }
  }

  lemma AppendDistinct(tried: seq<int>, k: int)
    requires Distinct(tried) && k !in tried
    ensures Distinct(tried + [k])
  {
  }
}
