/*
 * The ranking helpers of the population (Population.cpp:93-169): the
 * similarity of each archived solution and its biased fitness.
 *
 * As written, getSimilarity collects the arcs of every solution of the
 * archive, the solution's own arcs included, before counting which of a
 * solution's arcs occur in that collection; every arc does, so the
 * similarity of a solution is the number of arcs of its routes,
 * sum of (length - 1). getBiasedFitness writes the position in the
 * objective order into a side vector and then re-sorts the archive by
 * similarity, so element i receives rankFit = rankSim = i + 1 and, with no
 * elite, a biased fitness of 2 (i + 1). The model keeps both behaviours and
 * proves them as stated.
 */
module Similarity {
  import opened Schemes
  import opened Sorting

  // ---------------------------------------------------------------------
  // Arcs
  // ---------------------------------------------------------------------

  /** The arcs (consecutive pairs) of a route. */
  function RouteArcs(route: seq<int>): set<(int, int)> {
    if |route| < 2 then {}
    else RouteArcs(route[..|route| - 1]) + {(route[|route| - 2], route[|route| - 1])}
  }

  /** The arcs of every route of a chromosome. */
  function ChromArcs(chrom: seq<seq<int>>): set<(int, int)> {
    if chrom == [] then {}
    else ChromArcs(chrom[..|chrom| - 1]) + RouteArcs(chrom[|chrom| - 1])
  }

  /** The number of arcs of a chromosome, counted with repetition: the sum of (length - 1). */
  function ArcCount(chrom: seq<seq<int>>): int {
    if chrom == [] then 0
    else ArcCount(chrom[..|chrom| - 1]) + (|chrom[|chrom| - 1]| - 1)
  }

  /** How many arcs of the route are in `arcs`, counted position by position. */
  function Hits(route: seq<int>, arcs: set<(int, int)>): int {
    if |route| < 2 then 0
    else Hits(route[..|route| - 1], arcs) + (if (route[|route| - 2], route[|route| - 1]) in arcs then 1 else 0)
  }

  /** Hits summed over the routes of a chromosome. */
  function ChromHits(chrom: seq<seq<int>>, arcs: set<(int, int)>): int {
    if chrom == [] then 0
    else ChromHits(chrom[..|chrom| - 1], arcs) + Hits(chrom[|chrom| - 1], arcs)
  }

  /** Every route has at least one entry: the program counts arcs up to size() - 1 on an unsigned size. */
  predicate NonEmpty(chrom: seq<seq<int>>) {
    forall i :: 0 <= i < |chrom| ==> |chrom[i]| >= 1
  }

  /** A route whose arcs all lie in `arcs` hits once per arc. */
  lemma {:induction false} HitsAll(route: seq<int>, arcs: set<(int, int)>)
    requires |route| >= 1 && RouteArcs(route) <= arcs
    ensures Hits(route, arcs) == |route| - 1
  {
    if |route| >= 2 {
      var front := route[..|route| - 1];
      assert RouteArcs(front) <= RouteArcs(route);
      HitsAll(front, arcs);
    }
  }

  /** A route never hits more than it has arcs. */
  lemma {:induction false} HitsBound(route: seq<int>, arcs: set<(int, int)>)
    requires |route| >= 1
    ensures 0 <= Hits(route, arcs) <= |route| - 1
  {
    if |route| >= 2 {
      HitsBound(route[..|route| - 1], arcs);
    }
  }

  /** A chromosome whose arcs all lie in `arcs` hits exactly its arc count. */
  lemma {:induction false} ChromHitsAll(chrom: seq<seq<int>>, arcs: set<(int, int)>)
    requires NonEmpty(chrom) && ChromArcs(chrom) <= arcs
    ensures ChromHits(chrom, arcs) == ArcCount(chrom)
  {
    if chrom != [] {
      var front := chrom[..|chrom| - 1];
      assert ChromArcs(front) <= ChromArcs(chrom);
      ChromHitsAll(front, arcs);
      HitsAll(chrom[|chrom| - 1], arcs);
    }
  }

  /** Adds the arcs of one route (the innermost loop of Population.cpp:117-122). */
  method AddRouteArcs(arcs: set<(int, int)>, route: seq<int>) returns (arcs': set<(int, int)>)
    requires |route| >= 1
    ensures arcs' == arcs + RouteArcs(route)
  {
    arcs' := arcs;
    var j := 0;
    while j < |route| - 1
      invariant 0 <= j <= |route| - 1
      invariant arcs' == arcs + RouteArcs(route[..j + 1])
    {
      assert route[..j + 2][..j + 1] == route[..j + 1];
      arcs' := arcs' + {(route[j], route[j + 1])};
      j := j + 1;
    }
    assert route[..j + 1] == route;
  }

  /** Adds the arcs of every route of a chromosome. */
  method AddChromArcs(arcs: set<(int, int)>, chrom: seq<seq<int>>) returns (arcs': set<(int, int)>)
    requires NonEmpty(chrom)
    ensures arcs' == arcs + ChromArcs(chrom)
  {
    arcs' := arcs;
    for i := 0 to |chrom|
      invariant arcs' == arcs + ChromArcs(chrom[..i])
    {
      assert chrom[..i + 1][..i] == chrom[..i];
      arcs' := AddRouteArcs(arcs', chrom[i]);
    }
    assert chrom[..|chrom|] == chrom;
  }

  /** Counts the arcs of a route found in `arcs` (the innermost loops of Population.cpp:129-140). */
  method CountRouteHits(route: seq<int>, arcs: set<(int, int)>) returns (n: int)
    requires |route| >= 1
    ensures n == Hits(route, arcs)
  {
    n := 0;
    var j := 0;
    while j < |route| - 1
      invariant 0 <= j <= |route| - 1
      invariant n == Hits(route[..j + 1], arcs)
    {
      assert route[..j + 2][..j + 1] == route[..j + 1];
      if (route[j], route[j + 1]) in arcs {
        n := n + 1;
      }
      j := j + 1;
    }
    assert route[..j + 1] == route;
  }

  /** Counts the arcs of a chromosome found in `arcs`. */
  method CountChromHits(chrom: seq<seq<int>>, arcs: set<(int, int)>) returns (n: int)
    requires NonEmpty(chrom)
    ensures n == ChromHits(chrom, arcs)
  {
    n := 0;
    for i := 0 to |chrom|
      invariant n == ChromHits(chrom[..i], arcs)
    {
      assert chrom[..i + 1][..i] == chrom[..i];
      var h := CountRouteHits(chrom[i], arcs);
      n := n + h;
    }
    assert chrom[..|chrom|] == chrom;
  }

  // ---------------------------------------------------------------------
  // Similarity (Population.cpp:99-143)
  // ---------------------------------------------------------------------

  /** Every route of every solution of the archive is non-empty. */
  predicate AllNonEmpty(sub: seq<Individual>) {
    forall i :: 0 <= i < |sub| ==> NonEmpty(sub[i].chromTRK) && NonEmpty(sub[i].chromRPM)
  }

  /** The solution with its similarity set to the number of arcs of its routes. */
  function Similar(x: Individual): Individual {
    x.(eval := x.eval.(similarity := ArcCount(x.chromTRK) + ArcCount(x.chromRPM)))
  }

  /** The archive with every similarity set as getSimilarity sets it. */
  function WithSimilarity(sub: seq<Individual>): seq<Individual> {
    seq(|sub|, i requires 0 <= i < |sub| => Similar(sub[i]))
  }

  /** The truck and repairman arcs of the whole archive (Population.cpp:114-123). */
  method CollectArcs(sub: seq<Individual>) returns (truckArcs: set<(int, int)>, repairmanArcs: set<(int, int)>)
    requires AllNonEmpty(sub)
    ensures forall i :: 0 <= i < |sub| ==> ChromArcs(sub[i].chromTRK) <= truckArcs
    ensures forall i :: 0 <= i < |sub| ==> ChromArcs(sub[i].chromRPM) <= repairmanArcs
  {
    truckArcs, repairmanArcs := {}, {};
    for k := 0 to |sub|
      invariant forall i :: 0 <= i < k ==> ChromArcs(sub[i].chromTRK) <= truckArcs
      invariant forall i :: 0 <= i < k ==> ChromArcs(sub[i].chromRPM) <= repairmanArcs
    {
      truckArcs := AddChromArcs(truckArcs, sub[k].chromTRK);
      repairmanArcs := AddChromArcs(repairmanArcs, sub[k].chromRPM);
    }
  }

  /**
   * getSimilarity: each solution's similarity is the number of its arcs found
   * among the arcs of the archive, its own included, which is the number of
   * its arcs.
   */
  method GetSimilarity(sub: seq<Individual>) returns (r: seq<Individual>)
    requires AllNonEmpty(sub)
    ensures |r| == |sub|
    ensures forall i :: 0 <= i < |r| ==> r[i].eval.similarity == ArcCount(sub[i].chromTRK) + ArcCount(sub[i].chromRPM)
    ensures r == WithSimilarity(sub)
  {
    var truckArcs, repairmanArcs := CollectArcs(sub);
    r := sub;
    for k := 0 to |r|
      invariant |r| == |sub|
      invariant forall i :: 0 <= i < k ==> r[i] == Similar(sub[i])
      invariant forall i :: k <= i < |r| ==> r[i] == sub[i]
    {
      var truckSimilarity := CountChromHits(r[k].chromTRK, truckArcs);
      var repairmanSimilarity := CountChromHits(r[k].chromRPM, repairmanArcs);
      ChromHitsAll(sub[k].chromTRK, truckArcs);
      ChromHitsAll(sub[k].chromRPM, repairmanArcs);
      r := r[k := r[k].(eval := r[k].eval.(similarity := truckSimilarity + repairmanSimilarity))];
    }
  }

  // ---------------------------------------------------------------------
  // Biased fitness (Population.cpp:148-169)
  // ---------------------------------------------------------------------

  /** The sort keys of the population. */
  function ObjKey(x: Individual): real { x.eval.objVal }

  function SimKey(x: Individual): real { x.eval.similarity as real }

  function BiasKey(x: Individual): real { x.eval.biasedFitness }

  /** The routes of a solution: what operator== compares (Individual.h:65-69). */
  type RouteKey = (seq<seq<int>>, seq<seq<int>>)

  function Key(x: Individual): RouteKey { (x.chromRPM, x.chromTRK) }

  function Keys(s: seq<Individual>): seq<RouteKey> {
    seq(|s|, i requires 0 <= i < |s| => Key(s[i]))
  }

  /** No two solutions of the archive have the same routes. */
  ghost predicate DuplicateFree(s: seq<Individual>) {
    forall k :: multiset(Keys(s))[k] <= 1
  }

  /** The rank fields and the biased fitness written for position i (Population.cpp:163-168). */
  function Ranked(x: Individual, rankSim: int, rankFit: int, nbIndiv: int): Individual
    requires nbIndiv > 0
  {
    var nbElite := 0;
    x.(eval := x.eval.(rankSim := rankSim, rankFit := rankFit,
      biasedFitness := rankFit as real + (1.0 - nbElite as real / nbIndiv as real) * rankSim as real))
  }

  /** The archive sorted by objective, then by similarity. */
  function BySimilarity(sub: seq<Individual>): seq<Individual> {
    SortBy(SortBy(sub, ObjKey), SimKey)
  }

  /** Position i of an ordered archive gets rankFit = rankSim = i + 1. */
  function RankAll(s: seq<Individual>): seq<Individual> {
    seq(|s|, i requires 0 <= i < |s| => Ranked(s[i], i + 1, i + 1, |s|))
  }

  /** getBiasedFitness as written: the similarity order, ranked by position. */
  function Ranking(sub: seq<Individual>): seq<Individual> {
    RankAll(BySimilarity(sub))
  }

  /** updateAllBiasedFitness on one archive: similarity, then biased fitness. */
  function Rescored(sub: seq<Individual>): seq<Individual> {
    Ranking(WithSimilarity(sub))
  }

  /** getBiasedFitness (Population.cpp:148-169). */
  method GetBiasedFitness(sub: seq<Individual>) returns (r: seq<Individual>)
    ensures r == Ranking(sub)
  {
    r := SortBy(sub, ObjKey);
    var ranksFit := Positions(|r|);
    r := SortBy(r, SimKey);
    ghost var s := r;
    r := AssignRanks(r, ranksFit[..]);
    AssignedRanks(s, ranksFit[..], r);
  }

  /** The vector ranksFit of getBiasedFitness: position i holds i + 1 (Population.cpp:156-157). */
  method Positions(n: nat) returns (ranksFit: array<int>)
    ensures fresh(ranksFit) && ranksFit.Length == n
    ensures forall j :: 0 <= j < n ==> ranksFit[j] == j + 1
  {
    ranksFit := new int[n];
    for i := 0 to n
      invariant forall j :: 0 <= j < i ==> ranksFit[j] == j + 1
    {
      ranksFit[i] := i + 1;
    }
  }

  /** The last loop of getBiasedFitness: position i gets rankSim = i + 1 and rankFit = ranksFit[i] (Population.cpp:163-168). */
  method AssignRanks(s: seq<Individual>, ranksFit: seq<int>) returns (r: seq<Individual>)
    requires |ranksFit| == |s|
    ensures |r| == |s|
    ensures forall j :: 0 <= j < |s| ==> r[j] == Ranked(s[j], j + 1, ranksFit[j], |s|)
  {
    r := s;
    for i := 0 to |r|
      invariant |r| == |s|
      invariant forall j :: 0 <= j < i ==> r[j] == Ranked(s[j], j + 1, ranksFit[j], |s|)
      invariant forall j :: i <= j < |r| ==> r[j] == s[j]
    {
      r := r[i := Ranked(r[i], i + 1, ranksFit[i], |s|)];
    }
  }

  /** With ranksFit[i] = i + 1, the loop's result is RankAll. */
  lemma AssignedRanks(s: seq<Individual>, ranksFit: seq<int>, r: seq<Individual>)
    requires |ranksFit| == |s| == |r|
    requires forall j :: 0 <= j < |s| ==> ranksFit[j] == j + 1
    requires forall j :: 0 <= j < |s| ==> r[j] == Ranked(s[j], j + 1, ranksFit[j], |s|)
    ensures r == RankAll(s)
  {
  }

  // ---------------------------------------------------------------------
  // Keys
  // ---------------------------------------------------------------------

  lemma KeysAppend(a: seq<Individual>, b: seq<Individual>)
    ensures Keys(a + b) == Keys(a) + Keys(b)
  {
  }

  /** Permuting an archive permutes its route keys. */
  lemma {:induction false} KeysPerm(a: seq<Individual>, b: seq<Individual>)
    requires multiset(a) == multiset(b)
    ensures multiset(Keys(a)) == multiset(Keys(b))
    decreases |a|
  {
    if |a| == 0 {
      assert |b| == |multiset(b)| == 0;
    } else {
      var x := a[|a| - 1];
      var front := a[..|a| - 1];
      assert a == front + [x];
      assert x in multiset(b);
      var i :| 0 <= i < |b| && b[i] == x;
      var rest := b[..i] + b[i + 1..];
      assert b == b[..i] + [x] + b[i + 1..];
      assert multiset(b) == multiset(b[..i]) + multiset{x} + multiset(b[i + 1..]);
      assert multiset(a) == multiset(front) + multiset{x};
      assert multiset(rest) == multiset(b[..i]) + multiset(b[i + 1..]);
      assert multiset(front) == multiset(a) - multiset{x};
      assert multiset(rest) == multiset(b) - multiset{x};
      KeysPerm(front, rest);
      KeysAppend(front, [x]);
      KeysAppend(b[..i] + [x], b[i + 1..]);
      KeysAppend(b[..i], [x]);
      KeysAppend(b[..i], b[i + 1..]);
    }
  }

  /** Whether every route is non-empty depends on the route keys only. */
  lemma NonEmptyPerm(a: seq<Individual>, b: seq<Individual>)
    requires multiset(Keys(b)) <= multiset(Keys(a)) && AllNonEmpty(a)
    ensures AllNonEmpty(b)
  {
    forall i | 0 <= i < |b| ensures NonEmpty(b[i].chromTRK) && NonEmpty(b[i].chromRPM) {
      assert Keys(b)[i] in multiset(Keys(a));
      var j :| 0 <= j < |a| && Keys(a)[j] == Keys(b)[i];
      assert Key(a[j]) == Key(b[i]);
    }
  }

  /** Duplicate freedom depends on the multiset of route keys only, and survives dropping solutions. */
  lemma DuplicateFreeSub(a: seq<Individual>, b: seq<Individual>)
    requires multiset(Keys(b)) <= multiset(Keys(a)) && DuplicateFree(a)
    ensures DuplicateFree(b)
  {
    forall k ensures multiset(Keys(b))[k] <= 1 {
      assert multiset(Keys(b))[k] <= multiset(Keys(a))[k];
    }
  }

  /** A solution whose routes the archive lacks can join it without creating a duplicate. */
  lemma DuplicateFreeAppend(s: seq<Individual>, x: Individual)
    requires DuplicateFree(s) && Key(x) !in Keys(s)
    ensures DuplicateFree(s + [x])
  {
    KeysAppend(s, [x]);
    assert Keys(s + [x]) == Keys(s) + [Key(x)];
    assert multiset(Keys(s + [x])) == multiset(Keys(s)) + multiset{Key(x)};
  }

  /** An element of a permutation is an element of the original. */
  lemma PermMember<T>(a: seq<T>, b: seq<T>, i: int) returns (j: int)
    requires multiset(a) == multiset(b) && 0 <= i < |a|
    ensures 0 <= j < |b| && b[j] == a[i]
  {
    assert a[i] in multiset(b);
    j :| 0 <= j < |b| && b[j] == a[i];
  }

  // ---------------------------------------------------------------------
  // What the ranking does
  // ---------------------------------------------------------------------

  /** Ranking by position rewrites neither the routes nor the similarity. */
  lemma RankAllKeeps(s: seq<Individual>)
    ensures |RankAll(s)| == |s|
    ensures Keys(RankAll(s)) == Keys(s)
    ensures forall i :: 0 <= i < |s| ==> RankAll(s)[i].eval.similarity == s[i].eval.similarity
  {
    assert |RankAll(s)| == |s|;
    forall i | 0 <= i < |s| ensures Keys(RankAll(s))[i] == Keys(s)[i] {
    }
  }

  /** The ranking only rewrites rank fields: the route keys are a permutation of the input's. */
  lemma RankingKeys(sub: seq<Individual>)
    ensures |Ranking(sub)| == |sub|
    ensures multiset(Keys(Ranking(sub))) == multiset(Keys(sub))
  {
    var s := BySimilarity(sub);
    RankAllKeeps(s);
    KeysPerm(s, sub);
  }

  /** The biased fitness written for position i when rankSim = rankFit = i + 1 and there is no elite. */
  lemma RankedTwice(x: Individual, i: nat, n: nat)
    requires n > 0
    ensures Ranked(x, i + 1, i + 1, n).eval.biasedFitness == 2.0 * (i + 1) as real
  {
    assert 0 as real / n as real == 0.0;
  }

  /** Ranking by position: rankSim = rankFit = i + 1, biased fitness 2 (i + 1), order kept. */
  lemma RankAllFacts(s: seq<Individual>, key: Individual -> real)
    requires SortedBy(s, key)
    requires forall x, a, b, n | n > 0 :: key(Ranked(x, a, b, n)) == key(x)
    ensures |RankAll(s)| == |s|
    ensures SortedBy(RankAll(s), key)
    ensures forall i :: 0 <= i < |s| ==>
      RankAll(s)[i].eval.rankSim == i + 1 && RankAll(s)[i].eval.rankFit == i + 1
      && RankAll(s)[i].eval.biasedFitness == 2.0 * (i + 1) as real
  {
    var r := RankAll(s);
    forall i | 0 <= i < |r| ensures r[i].eval.biasedFitness == 2.0 * (i + 1) as real {
      RankedTwice(s[i], i, |s|);
    }
    forall i | 0 <= i < |r| ensures key(r[i]) == key(s[i]) {
      assert r[i] == Ranked(s[i], i + 1, i + 1, |s|);
    }
  }

  /**
   * As written, the biased fitness is twice the similarity rank: element i
   * of the ranked archive has rankSim = rankFit = i + 1 and biased fitness
   * 2 (i + 1), whatever the objective values; the archive is in
   * non-decreasing similarity order and its biased fitness strictly
   * increases.
   */
  lemma RankingFacts(sub: seq<Individual>)
    ensures |Ranking(sub)| == |sub|
    ensures SortedBy(Ranking(sub), SimKey)
    ensures forall i :: 0 <= i < |sub| ==>
      Ranking(sub)[i].eval.rankSim == i + 1 && Ranking(sub)[i].eval.rankFit == i + 1
      && Ranking(sub)[i].eval.biasedFitness == 2.0 * (i + 1) as real
    ensures forall i, j :: 0 <= i < j < |sub| ==> BiasKey(Ranking(sub)[i]) < BiasKey(Ranking(sub)[j])
  {
    RankAllFacts(BySimilarity(sub), SimKey);
  }

  /** The similarity equals the arc count of the solution's own routes. */
  ghost predicate ArcSimilar(x: Individual) {
    x.eval.similarity == ArcCount(x.chromTRK) + ArcCount(x.chromRPM)
  }

  /** A permutation of solutions whose similarity is their arc count has the same property. */
  lemma ArcSimilarPerm(a: seq<Individual>, b: seq<Individual>)
    requires multiset(a) == multiset(b)
    requires forall i :: 0 <= i < |a| ==> ArcSimilar(a[i])
    ensures forall i :: 0 <= i < |b| ==> ArcSimilar(b[i])
  {
    forall i | 0 <= i < |b| ensures ArcSimilar(b[i]) {
      var j := PermMember(b, a, i);
    }
  }

  /** As written, the similarity a rescored archive carries is each solution's own arc count. */
  lemma RescoredSimilarity(sub: seq<Individual>)
    ensures |Rescored(sub)| == |sub|
    ensures forall i :: 0 <= i < |sub| ==> ArcSimilar(Rescored(sub)[i])
  {
    var w := WithSimilarity(sub);
    var s := BySimilarity(w);
    assert forall i :: 0 <= i < |w| ==> ArcSimilar(w[i]);
    ArcSimilarPerm(w, s);
    RankAllKeeps(s);
    forall i | 0 <= i < |s| ensures ArcSimilar(RankAll(s)[i]) {
      assert Key(RankAll(s)[i]) == Keys(RankAll(s))[i] == Keys(s)[i] == Key(s[i]);
    }
  }

  /** Rescoring keeps the route keys, so it keeps non-empty routes and duplicate freedom. */
  lemma RescoredKeys(sub: seq<Individual>)
    ensures |Rescored(sub)| == |sub|
    ensures multiset(Keys(Rescored(sub))) == multiset(Keys(sub))
    ensures AllNonEmpty(sub) ==> AllNonEmpty(Rescored(sub))
    ensures DuplicateFree(sub) ==> DuplicateFree(Rescored(sub))
  {
    var w := WithSimilarity(sub);
    assert Keys(w) == Keys(sub);
    RankingKeys(w);
    if AllNonEmpty(sub) {
      NonEmptyPerm(sub, Rescored(sub));
    }
    if DuplicateFree(sub) {
      DuplicateFreeSub(sub, Rescored(sub));
    }
  }
}
