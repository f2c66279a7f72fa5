/*
 * The population of the genetic algorithm (Population.h, Population.cpp):
 * a feasible and an infeasible archive of solutions, the solutions added to
 * each since the last penalty adjustment, and the penalty for one unit of
 * capacity excess that the archives are scored with.
 *
 * The penalty lives in the program's parameter object (params.ap), which
 * every component shares; here it is the field `penaltyCapacity` of the
 * population, the only component of the model that changes it. The
 * solutions the program builds at random (the random-route constructor of
 * Individual) come in as the sequence `newcomers`.
 */
module Populations {
  import opened Random
  import opened Instances
  import opened Schemes
  import opened Sorting
  import opened Evaluation
  import opened Individuals
  import opened LocalSearch
  import opened Similarity

  // ---------------------------------------------------------------------
  // Survivor selection (Population.cpp:54-69)
  // ---------------------------------------------------------------------

  /** The archive sorted by biased fitness and cut to its first `mu` members. */
  function Truncate(s: seq<Individual>, mu: int): seq<Individual>
    requires 0 <= mu <= |s|
  {
    SortBy(s, BiasKey)[..mu]
  }

  /** A sorted sequence cut in two: nothing after the cut has a lower key than anything before it. */
  lemma CutLowest<T>(t: seq<T>, key: T -> real, mu: int)
    requires SortedBy(t, key) && 0 <= mu <= |t|
    ensures multiset(t) == multiset(t[..mu]) + multiset(t[mu..])
    ensures forall x, y :: x in multiset(t[..mu]) && y in multiset(t[mu..]) ==> key(x) <= key(y)
  {
    assert t == t[..mu] + t[mu..];
    forall x, y | x in multiset(t[..mu]) && y in multiset(t[mu..]) ensures key(x) <= key(y) {
      assert x in t[..mu] && y in t[mu..];
      var i :| 0 <= i < mu && t[i] == x;
      var j :| mu <= j < |t| && t[j] == y;
    }
  }

  /**
   * sizeControl on one archive keeps exactly `mu` members, taken from the
   * archive, and none of the dropped ones has a lower biased fitness than a
   * kept one.
   */
  lemma TruncateLowest(s: seq<Individual>, mu: int)
    requires 0 <= mu <= |s|
    ensures |Truncate(s, mu)| == mu
    ensures multiset(Truncate(s, mu)) <= multiset(s)
    ensures forall x, y :: x in multiset(Truncate(s, mu)) && y in multiset(s) - multiset(Truncate(s, mu)) ==>
      BiasKey(x) <= BiasKey(y)
  {
    var t := SortBy(s, BiasKey);
    CutLowest(t, BiasKey, mu);
    assert multiset(s) - multiset(t[..mu]) == multiset(t[mu..]);
  }

  /** Truncation keeps a sub-multiset of the route keys. */
  lemma TruncateKeys(s: seq<Individual>, mu: int)
    requires 0 <= mu <= |s|
    ensures multiset(Keys(Truncate(s, mu))) <= multiset(Keys(s))
  {
    var t := SortBy(s, BiasKey);
    assert t == t[..mu] + t[mu..];
    KeysAppend(t[..mu], t[mu..]);
    KeysPerm(t, s);
  }

  // ---------------------------------------------------------------------
  // Penalty management (Population.cpp:71-91)
  // ---------------------------------------------------------------------

  /** The multiplier adjustmentBasedOnProportion chooses from the latest-load sizes. */
  function Multiplier(feasibleSize: int, infeasibleSize: int, targetFeasible: real): real {
    if feasibleSize + infeasibleSize > 0 then
      var proportion := feasibleSize as real / (feasibleSize + infeasibleSize) as real;
      if proportion < targetFeasible - 0.05 then 1.2
      else if proportion > targetFeasible + 0.05 then 0.85
      else 1.0
    else 1.0
  }

  /** For a positive denominator, a ratio is below a bound exactly when the numerator is below bound times denominator. */
  lemma RatioBelow(a: real, n: real, c: real)
    requires n > 0.0
    ensures a / n < c <==> a < c * n
    ensures a / n > c <==> a > c * n
  {
    assert a / n * n == a;
    if a / n < c {
      assert a / n * n < c * n;
    }
    if a / n > c {
      assert a / n * n > c * n;
    }
    if a < c * n {
      assert a / n < c * n / n;
    }
    if a > c * n {
      assert a / n > c * n / n;
    }
  }

  /**
   * The multiplier without the division: 1.2 when fewer than (target - 0.05)
   * of the recent solutions are feasible, 0.85 when more than
   * (target + 0.05) are, and 1 otherwise or when nothing was added.
   */
  lemma MultiplierRule(feasibleSize: nat, infeasibleSize: nat, targetFeasible: real)
    ensures var m := Multiplier(feasibleSize, infeasibleSize, targetFeasible);
            var n := (feasibleSize + infeasibleSize) as real;
            && (m == 1.2 <==> feasibleSize + infeasibleSize > 0 && feasibleSize as real < (targetFeasible - 0.05) * n)
            && (m == 0.85 <==> feasibleSize + infeasibleSize > 0 && feasibleSize as real >= (targetFeasible - 0.05) * n
                                && feasibleSize as real > (targetFeasible + 0.05) * n)
            && (m == 1.0 <==> feasibleSize + infeasibleSize == 0
                               || ((targetFeasible - 0.05) * n <= feasibleSize as real <= (targetFeasible + 0.05) * n))
  {
    if feasibleSize + infeasibleSize > 0 {
      var n := (feasibleSize + infeasibleSize) as real;
      RatioBelow(feasibleSize as real, n, targetFeasible - 0.05);
      RatioBelow(feasibleSize as real, n, targetFeasible + 0.05);
    }
  }

  /** Every archived solution re-evaluated under a new penalty. */
  function Reevaluated(s: seq<Individual>, penaltyCapacity: real): seq<Individual> {
    seq(|s|, i requires 0 <= i < |s| => s[i].(eval := SolutionEvaluation(s[i].eval, penaltyCapacity)))
  }

  /** The loops of Population.cpp:86-87: each solution's objective is recomputed. */
  method Reevaluate(s: seq<Individual>, penaltyCapacity: real) returns (r: seq<Individual>)
    ensures r == Reevaluated(s, penaltyCapacity)
  {
    r := s;
    for i := 0 to |r|
      invariant |r| == |s|
      invariant forall j :: 0 <= j < i ==> r[j] == s[j].(eval := SolutionEvaluation(s[j].eval, penaltyCapacity))
      invariant forall j :: i <= j < |r| ==> r[j] == s[j]
    {
      r := r[i := r[i].(eval := SolutionEvaluation(r[i].eval, penaltyCapacity))];
    }
  }

  /**
   * Re-evaluation changes only the objective, which becomes the objective
   * under the new penalty; the routes are kept, so a consistent evaluation
   * stays consistent under the new penalty.
   */
  lemma ReevaluatedFacts(p: Params, s: seq<Individual>, oldPenalty: real, penaltyCapacity: real)
    ensures |Reevaluated(s, penaltyCapacity)| == |s|
    ensures Keys(Reevaluated(s, penaltyCapacity)) == Keys(s)
    ensures forall i :: 0 <= i < |s| ==>
      Reevaluated(s, penaltyCapacity)[i].eval.objVal == ObjVal(s[i].eval, penaltyCapacity)
      && Reevaluated(s, penaltyCapacity)[i].eval.(objVal := s[i].eval.objVal) == s[i].eval
    ensures forall i :: 0 <= i < |s| && Evaluated(p, s[i].eval, oldPenalty) ==>
      Evaluated(p, Reevaluated(s, penaltyCapacity)[i].eval, penaltyCapacity)
  {
    var r := Reevaluated(s, penaltyCapacity);
    assert Keys(r) == Keys(s) by {
      forall i | 0 <= i < |s| ensures Keys(r)[i] == Keys(s)[i] {
      }
    }
  }

  // ---------------------------------------------------------------------
  // Diversification (Population.cpp:176-234)
  // ---------------------------------------------------------------------

  /** The archive sorted by biased fitness and cut to its best mu / 3 members. */
  function Kept(s: seq<Individual>, mu: int): seq<Individual>
    requires mu >= 0
  {
    var t := SortBy(s, BiasKey);
    if |t| > mu / 3 then t[..mu / 3] else t
  }

  /** The newcomers of one side that are not equal to a member of that side's archive, in order. */
  function NewCandidates(newcomers: seq<Individual>, archive: seq<Individual>, feasibleSide: bool): seq<Individual> {
    if newcomers == [] then []
    else
      var x := newcomers[|newcomers| - 1];
      NewCandidates(newcomers[..|newcomers| - 1], archive, feasibleSide)
      + (if x.eval.isFeasible == feasibleSide && Key(x) !in Keys(archive) then [x] else [])
  }

  /** The candidate loop goes on after reading these newcomers (Population.cpp:190-194). */
  ghost predicate Continues(newcomers: seq<Individual>, keptF: seq<Individual>, keptI: seq<Individual>, mu: int) {
    var cF := NewCandidates(newcomers, keptF, true);
    var cI := NewCandidates(newcomers, keptI, false);
    && (|cF| + |keptF| <= mu || |cI| + |keptI| <= mu)
    && |keptF| + |keptI| + |cF| + |cI| < 4 * mu
  }

  /** The refill loop: while the archive has at most mu members, the last candidate moves over. */
  function Refilled(archive: seq<Individual>, cands: seq<Individual>, mu: int): seq<Individual>
    decreases |cands|
  {
    if |archive| <= mu && |cands| != 0 then Refilled(archive + [cands[|cands| - 1]], cands[..|cands| - 1], mu)
    else archive
  }

  function Reverse<T>(s: seq<T>): (r: seq<T>)
    ensures |r| == |s|
  {
    if s == [] then [] else [s[|s| - 1]] + Reverse(s[..|s| - 1])
  }

  /** How many candidates the refill takes. */
  function Taken(archive: seq<Individual>, cands: seq<Individual>, mu: int): nat {
    if |archive| > mu then 0
    else if |cands| <= mu + 1 - |archive| then |cands|
    else mu + 1 - |archive|
  }

  /**
   * The refill appends the last Taken candidates, last one first: it stops
   * when the candidates run out or the archive has mu + 1 members.
   */
  lemma {:induction false} RefilledTakes(archive: seq<Individual>, cands: seq<Individual>, mu: int)
    ensures Taken(archive, cands, mu) <= |cands|
    ensures Refilled(archive, cands, mu)
      == archive + Reverse(cands[|cands| - Taken(archive, cands, mu)..])
    decreases |cands|
  {
    var k := Taken(archive, cands, mu);
    if |archive| <= mu && |cands| != 0 {
      var n := |cands|;
      var last, front := cands[n - 1], cands[..n - 1];
      RefilledTakes(archive + [last], front, mu);
      assert Taken(archive + [last], front, mu) == k - 1;
      assert cands[n - k..][..k - 1] == front[n - 1 - (k - 1)..];
      assert cands[n - k..] == front[n - k..] + [last];
    } else {
      assert cands[|cands| - k..] == [];
    }
  }

  /**
   * With the candidates in ascending biased fitness, the refilled archive
   * is the kept members followed by the Taken candidates of largest biased
   * fitness, largest first; it has at most mu + 1 members, and fewer only
   * when the candidates ran out.
   */
  lemma RefilledFacts(archive: seq<Individual>, cands: seq<Individual>, mu: int)
    requires SortedBy(cands, BiasKey)
    ensures var r := Refilled(archive, cands, mu); var k := Taken(archive, cands, mu);
            && r == archive + Reverse(cands[|cands| - k..])
            && (|archive| <= mu ==> |r| <= mu + 1 && (|r| == mu + 1 || k == |cands|))
            && (forall x, y :: x in cands[|cands| - k..] && y in cands[..|cands| - k] ==> BiasKey(y) <= BiasKey(x))
  {
    var k := Taken(archive, cands, mu);
    RefilledTakes(archive, cands, mu);
    CutLowest(cands, BiasKey, |cands| - k);
  }

  /** The newcomers that become candidates are distinct from every member of the archive they join. */
  lemma {:induction false} NewCandidatesFresh(newcomers: seq<Individual>, archive: seq<Individual>, feasibleSide: bool)
    ensures forall i :: 0 <= i < |NewCandidates(newcomers, archive, feasibleSide)| ==>
      var x := NewCandidates(newcomers, archive, feasibleSide)[i];
      x.eval.isFeasible == feasibleSide && Key(x) !in Keys(archive) && x in newcomers
  {
    if newcomers != [] {
      var front := newcomers[..|newcomers| - 1];
      NewCandidatesFresh(front, archive, feasibleSide);
      assert forall x :: x in front ==> x in newcomers;
    }
  }

  /** Candidates drawn from solutions with non-empty routes have non-empty routes. */
  lemma NewCandidatesNonEmpty(newcomers: seq<Individual>, archive: seq<Individual>, feasibleSide: bool)
    requires AllNonEmpty(newcomers)
    ensures AllNonEmpty(NewCandidates(newcomers, archive, feasibleSide))
  {
    NewCandidatesFresh(newcomers, archive, feasibleSide);
    var c := NewCandidates(newcomers, archive, feasibleSide);
    forall i | 0 <= i < |c| ensures NonEmpty(c[i].chromTRK) && NonEmpty(c[i].chromRPM) {
      var j :| 0 <= j < |newcomers| && newcomers[j] == c[i];
    }
  }

  /** One more newcomer read by the candidate loop. */
  lemma NewCandidatesStep(newcomers: seq<Individual>, i: int, archive: seq<Individual>, feasibleSide: bool)
    requires 0 <= i < |newcomers|
    ensures NewCandidates(newcomers[..i + 1], archive, feasibleSide)
      == NewCandidates(newcomers[..i], archive, feasibleSide)
         + (if newcomers[i].eval.isFeasible == feasibleSide && Key(newcomers[i]) !in Keys(archive) then [newcomers[i]] else [])
  {
    assert newcomers[..i + 1][..i] == newcomers[..i];
  }

  /** A rescored candidate list sorted by biased fitness, the order the refill pops from. */
  function Ordered(cands: seq<Individual>): seq<Individual> {
    SortBy(Rescored(cands), BiasKey)
  }

  /**
   * What diversification leaves: each archive is its best mu / 3 followed
   * by the refill from its side's candidates among the first `used`
   * newcomers, where `used` is where the candidate loop stopped.
   */
  ghost predicate Diversified(f0: seq<Individual>, i0: seq<Individual>, mu: int, newcomers: seq<Individual>, used: nat,
                              f: seq<Individual>, i: seq<Individual>)
    requires mu >= 0
  {
    var keptF, keptI := Kept(f0, mu), Kept(i0, mu);
    && used <= |newcomers|
    && (forall u :: 0 <= u < used ==> Continues(newcomers[..u], keptF, keptI, mu))
    && (used == |newcomers| || !Continues(newcomers[..used], keptF, keptI, mu))
    && f == Refilled(keptF, Ordered(NewCandidates(newcomers[..used], keptF, true)), mu)
    && i == Refilled(keptI, Ordered(NewCandidates(newcomers[..used], keptI, false)), mu)
  }

  /** Every entry of a reversed list is an entry of the list. */
  lemma {:induction false} ReverseFrom<T>(s: seq<T>)
    ensures forall x :: x in Reverse(s) ==> x in s
  {
    if s != [] {
      ReverseFrom(s[..|s| - 1]);
      assert forall x :: x in s[..|s| - 1] ==> x in s;
    }
  }

  /** The route pair of a member is among the archive's route pairs. */
  lemma KeyOf(s: seq<Individual>, x: Individual)
    requires x in s
    ensures Key(x) in Keys(s)
  {
    var m :| 0 <= m < |s| && s[m] == x;
    assert Keys(s)[m] == Key(x);
  }

  /** The kept members of a side are members of it. */
  lemma KeptFrom(s: seq<Individual>, mu: int)
    requires mu >= 0
    ensures forall x :: x in Kept(s, mu) ==> x in s
  {
    var t := SortBy(s, BiasKey);
    forall x | x in Kept(s, mu) ensures x in s {
      assert x in t;
      assert x in multiset(s);
    }
  }

  /** Rescoring and sorting the candidates keeps their route pairs. */
  lemma OrderedFrom(c: seq<Individual>)
    ensures forall k :: k in Keys(Ordered(c)) ==> k in Keys(c)
  {
    RescoredKeys(c);
    KeysPerm(Ordered(c), Rescored(c));
    forall k | k in Keys(Ordered(c)) ensures k in Keys(c) {
      assert k in multiset(Keys(c));
    }
  }

  /** The refill appends candidates only. */
  lemma RefilledFrom(archive: seq<Individual>, cands: seq<Individual>, mu: int)
    ensures forall x :: x in Refilled(archive, cands, mu) ==> x in archive || x in cands
  {
    RefilledTakes(archive, cands, mu);
    var tail := cands[|cands| - Taken(archive, cands, mu)..];
    ReverseFrom(tail);
  }

  /**
   * One diversified side holds only routes it held before or routes of
   * the newcomers read.
   */
  lemma RefilledSide(s0: seq<Individual>, mu: int, read: seq<Individual>, feasibleSide: bool)
    requires mu >= 0
    ensures var kept := Kept(s0, mu);
            forall k :: k in Keys(Refilled(kept, Ordered(NewCandidates(read, kept, feasibleSide)), mu)) ==>
              k in Keys(s0) || k in Keys(read)
  {
    var kept := Kept(s0, mu);
    var c := NewCandidates(read, kept, feasibleSide);
    var o := Ordered(c);
    var r := Refilled(kept, o, mu);
    RefilledFrom(kept, o, mu);
    KeptFrom(s0, mu);
    OrderedFrom(c);
    NewCandidatesFresh(read, kept, feasibleSide);
    forall k | k in Keys(r) ensures k in Keys(s0) || k in Keys(read) {
      var j :| 0 <= j < |r| && Keys(r)[j] == k;
      if r[j] in kept {
        KeyOf(s0, r[j]);
      } else {
        KeyOf(o, r[j]);
        var n :| 0 <= n < |c| && Keys(c)[n] == k;
        KeyOf(read, c[n]);
      }
    }
  }

  /**
   * Diversification brings in no routes from elsewhere: every route pair of
   * a diversified archive was in that archive before or is a newcomer's.
   */
  lemma DiversifiedKeys(f0: seq<Individual>, i0: seq<Individual>, mu: int, newcomers: seq<Individual>, used: nat,
                        f: seq<Individual>, i: seq<Individual>)
    requires mu >= 0 && Diversified(f0, i0, mu, newcomers, used, f, i)
    ensures forall k :: k in Keys(f) ==> k in Keys(f0) || k in Keys(newcomers)
    ensures forall k :: k in Keys(i) ==> k in Keys(i0) || k in Keys(newcomers)
  {
    RefilledSide(f0, mu, newcomers[..used], true);
    RefilledSide(i0, mu, newcomers[..used], false);
    assert Keys(newcomers[..used]) == Keys(newcomers)[..used];
  }

  /** An archive after addIndividualToSubpopulation holds only its former routes and the offered solution's. */
  lemma AdmittedKeys(s0: seq<Individual>, l0: seq<Individual>, x: Individual, added: bool, joins: bool,
                     s: seq<Individual>, l: seq<Individual>)
    requires Admitted(s0, l0, x, added, joins, s, l)
    ensures forall k :: k in Keys(s) ==> k in Keys(s0) || k == Key(x)
  {
    if added {
      var u := if joins then s0 + [x] else s0;
      RescoredWithin(u);
      if joins {
        KeysAppend(s0, [x]);
        assert Keys([x]) == [Key(x)];
      }
    }
  }

  /** Rescoring brings in no new routes. */
  lemma RescoredWithin(u: seq<Individual>)
    ensures forall k :: k in Keys(Rescored(u)) ==> k in Keys(u)
  {
    RescoredKeys(u);
    forall k | k in Keys(Rescored(u)) ensures k in Keys(u) {
      assert k in multiset(Keys(Rescored(u)));
    }
  }

  /** The archives a population may hold: every route non-empty. */
  ghost predicate ArchivesOk(feasible: seq<Individual>, infeasible: seq<Individual>) {
    AllNonEmpty(feasible) && AllNonEmpty(infeasible)
  }

  /** The solutions of a chromosome pair whose routes have at least two entries have non-empty routes. */
  lemma ChromosomesNonEmpty(p: Params, x: Individual)
    requires ChromosomesOk(p, x.chromRPM, x.chromTRK)
    ensures AllNonEmpty([x])
  {
  }

  // ---------------------------------------------------------------------
  // The population
  // ---------------------------------------------------------------------

  class Population {
    var feasible: seq<Individual>
    var infeasible: seq<Individual>
    var latestFeasible: seq<Individual>
    var latestInfeasible: seq<Individual>
    var penaltyCoefficient: real
    /** params.ap.penaltyCapacity. */
    var penaltyCapacity: real

    ghost predicate Valid()
      reads this
    {
      ArchivesOk(feasible, infeasible)
    }

    /** Both archives, feasible first: the index space of getBinaryTournament. */
    function Members(): seq<Individual>
      reads this
    {
      feasible + infeasible
    }

    constructor (penaltyCapacity0: real)
      ensures feasible == [] && infeasible == [] && latestFeasible == [] && latestInfeasible == []
      ensures penaltyCoefficient == 100.0 && penaltyCapacity == penaltyCapacity0
      ensures Valid()
    {
      feasible, infeasible := [], [];
      latestFeasible, latestInfeasible := [], [];
      penaltyCoefficient := 100.0;
      penaltyCapacity := penaltyCapacity0;
    }

    /** updateAllBiasedFitness (Population.cpp:277-282). */
    method UpdateAllBiasedFitness()
      modifies this
      requires Valid()
      ensures feasible == Rescored(old(feasible)) && infeasible == Rescored(old(infeasible))
      ensures latestFeasible == old(latestFeasible) && latestInfeasible == old(latestInfeasible)
      ensures penaltyCoefficient == old(penaltyCoefficient) && penaltyCapacity == old(penaltyCapacity)
      ensures Valid()
    {
      feasible := Rescore(feasible);
      infeasible := Rescore(infeasible);
    }

    /**
     * addIndividualToSubpopulation (Population.cpp:255-275): the solution
     * joins its side's archive and latest-load list when no member has the
     * same routes, and then both archives are rescored.
     */
    method AddIndividualToSubpopulation(indiv: Individual) returns (added: bool)
      modifies this
      requires Valid() && AllNonEmpty([indiv])
      ensures Valid()
      ensures added <==> Key(indiv) !in Keys(if indiv.eval.isFeasible then old(feasible) else old(infeasible))
      ensures Admitted(old(feasible), old(latestFeasible), indiv, added, indiv.eval.isFeasible, feasible, latestFeasible)
      ensures Admitted(old(infeasible), old(latestInfeasible), indiv, added, !indiv.eval.isFeasible, infeasible, latestInfeasible)
      ensures penaltyCoefficient == old(penaltyCoefficient) && penaltyCapacity == old(penaltyCapacity)
    {
      added := Key(indiv) !in Keys(if indiv.eval.isFeasible then feasible else infeasible);
      var f, lf := Admit(feasible, latestFeasible, indiv, added, indiv.eval.isFeasible);
      var i, li := Admit(infeasible, latestInfeasible, indiv, added, !indiv.eval.isFeasible);
      feasible, infeasible, latestFeasible, latestInfeasible := f, i, lf, li;
    }

    /** sizeControl (Population.cpp:54-69). */
    method SizeControl(subPopMaxSize: int, mu: int)
      modifies this
      requires Valid() && 0 <= mu <= subPopMaxSize
      ensures Valid()
      ensures feasible == SizeControlled(old(feasible), subPopMaxSize, mu)
      ensures infeasible == SizeControlled(old(infeasible), subPopMaxSize, mu)
      ensures latestFeasible == old(latestFeasible) && latestInfeasible == old(latestInfeasible)
      ensures penaltyCoefficient == old(penaltyCoefficient) && penaltyCapacity == old(penaltyCapacity)
    {
      feasible := ControlArchive(feasible, subPopMaxSize, mu);
      infeasible := ControlArchive(infeasible, subPopMaxSize, mu);
    }

    /** adjustmentBasedOnProportion (Population.cpp:71-91). */
    method AdjustmentBasedOnProportion(targetFeasible: real) returns (multiplier: real)
      modifies this
      requires Valid()
      ensures multiplier == Multiplier(|old(latestFeasible)|, |old(latestInfeasible)|, targetFeasible)
      ensures multiplier == 1.0 ==> feasible == old(feasible) && infeasible == old(infeasible)
                                    && penaltyCapacity == old(penaltyCapacity) && penaltyCoefficient == old(penaltyCoefficient)
      ensures multiplier != 1.0 ==> && penaltyCapacity == old(penaltyCapacity) * multiplier
                                    && penaltyCoefficient == penaltyCapacity
                                    && feasible == Reevaluated(old(feasible), penaltyCapacity)
                                    && infeasible == Reevaluated(old(infeasible), penaltyCapacity)
      ensures latestFeasible == old(latestFeasible) && latestInfeasible == old(latestInfeasible)
      ensures Valid()
    {
      var feasibleSize := |latestFeasible|;
      var infeasibleSize := |latestInfeasible|;
      multiplier := 1.0;
      if feasibleSize + infeasibleSize > 0 {
        var proportion := feasibleSize as real / (feasibleSize + infeasibleSize) as real;
        if proportion < targetFeasible - 0.05 {
          multiplier := 1.2;
        } else if proportion > targetFeasible + 0.05 {
          multiplier := 0.85;
        }
      }
      if multiplier != 1.0 {
        penaltyCapacity := penaltyCapacity * multiplier;
        ReevaluatedFacts(Params(0, 0, 0, 0, 0, 0, 0.0, 0, 0, 0, 0.0, 0, 0.0, 0), feasible, penaltyCapacity, penaltyCapacity);
        ReevaluatedFacts(Params(0, 0, 0, 0, 0, 0, 0.0, 0, 0, 0, 0.0, 0, 0.0, 0), infeasible, penaltyCapacity, penaltyCapacity);
        NonEmptyPerm(feasible, Reevaluated(feasible, penaltyCapacity));
        NonEmptyPerm(infeasible, Reevaluated(infeasible, penaltyCapacity));
        feasible := Reevaluate(feasible, penaltyCapacity);
        infeasible := Reevaluate(infeasible, penaltyCapacity);
        penaltyCoefficient := penaltyCapacity;
      }
    }

    /**
     * getBinaryTournament (Population.cpp:236-253): two distinct positions
     * of feasible ++ infeasible; the winner has the strictly lower biased
     * fitness, the second on a tie. The redraw of an equal second index is
     * one draw over the other positions.
     */
    method GetBinaryTournament(g: Rng) returns (winner: Individual, g': Rng, ghost index1: int, ghost index2: int)
      requires |feasible| + |infeasible| >= 2
      ensures 0 <= index1 < |Members()| && 0 <= index2 < |Members()| && index1 != index2
      ensures winner == Members()[index1] || winner == Members()[index2]
      ensures BiasKey(winner) <= BiasKey(Members()[index1]) && BiasKey(winner) <= BiasKey(Members()[index2])
      ensures BiasKey(Members()[index1]) == BiasKey(Members()[index2]) ==> winner == Members()[index2]
      ensures g'.stream == g.stream
    {
      var n := |feasible| + |infeasible|;
      var raw1, raw2;
      raw1, g' := Draw(g);
      var i1 := GetRand(raw1, n);
      raw2, g' := Draw(g');
      var i2 := PickOther(raw2, n, i1 + 1) - 1;
      index1, index2 := i1, i2;
      var indiv1 := if i1 < |feasible| then feasible[i1] else infeasible[i1 - |feasible|];
      var indiv2 := if i2 < |feasible| then feasible[i2] else infeasible[i2 - |feasible|];
      assert indiv1 == Members()[i1] && indiv2 == Members()[i2];
      winner := if indiv1.eval.biasedFitness < indiv2.eval.biasedFitness then indiv1 else indiv2;
    }

    /**
     * diversification (Population.cpp:176-234), with the newcomers taken in
     * order from `newcomers`: each archive keeps its best mu / 3; newcomers not
     * equal to a kept member of their side become candidates until both
     * sides have more than mu members counting candidates, 4 mu solutions
     * are held, or `newcomers` runs out; the candidates are rescored, sorted by
     * biased fitness and moved over from the back while the archive has at
     * most mu members.
     */
    method Diversification(mu: int, newcomers: seq<Individual>) returns (ghost used: nat)
      modifies this
      requires Valid() && mu >= 0 && AllNonEmpty(newcomers)
      ensures Diversified(old(feasible), old(infeasible), mu, newcomers, used, feasible, infeasible)
      ensures latestFeasible == old(latestFeasible) && latestInfeasible == old(latestInfeasible)
      ensures penaltyCoefficient == old(penaltyCoefficient) && penaltyCapacity == old(penaltyCapacity)
      ensures Valid()
    {
      feasible, infeasible, used := Diversify(feasible, infeasible, mu, newcomers);
    }

    /**
     * generateInitialPopulation (Population.cpp:9-25): up to 4 mu newcomers
     * are educated and archived, and an archive that reaches mu + lambda
     * members is cut back to mu.
     */
    method GenerateInitialPopulation(p: Params, inst: Instance, newcomers: seq<Individual>, g: Rng) returns (g': Rng)
      modifies this
      requires ValidParams(p) && ValidInstance(inst, p) && InitialStockOk(inst, p) && Valid()
      requires p.mu >= 0 && p.lambda >= 0
      requires forall i :: 0 <= i < |newcomers| ==> ChromosomesOk(p, newcomers[i].chromRPM, newcomers[i].chromTRK)
      requires |feasible| <= p.mu + p.lambda && |infeasible| <= p.mu + p.lambda
      ensures Valid() && g'.stream == g.stream
      ensures |feasible| <= p.mu + p.lambda && |infeasible| <= p.mu + p.lambda
      ensures penaltyCoefficient == old(penaltyCoefficient)
      ensures penaltyCapacity == old(penaltyCapacity) || penaltyCapacity == penaltyCoefficient
    {
      var subPopMaxSize := p.mu + p.lambda;
      g' := g;
      var n := if 4 * p.mu < |newcomers| then 4 * p.mu else |newcomers|;
      for i := 0 to n
        invariant Valid() && g'.stream == g.stream
        invariant |feasible| <= subPopMaxSize && |infeasible| <= subPopMaxSize
        invariant penaltyCoefficient == old(penaltyCoefficient)
        invariant penaltyCapacity == old(penaltyCapacity) || penaltyCapacity == penaltyCoefficient
      {
        var educated;
        ghost var penalties, results;
        educated, g', penalties, results := EducateAndRepair(p, inst, newcomers[i], g');
        if |feasible| >= subPopMaxSize || |infeasible| >= subPopMaxSize {
          SizeControl(subPopMaxSize, p.mu);
        }
      }
    }

    /**
     * educateAndRepair (Population.cpp:27-52): local search, then the
     * archive; an infeasible result is, on a fair coin, searched again with
     * ten times the penalty and archived, and if still infeasible searched
     * with a hundred times the penalty and archived; the penalty is then set
     * to penaltyCoefficient. `penalties` lists the penalty of each search
     * and `results` what each search returned.
     */
    method EducateAndRepair(p: Params, inst: Instance, indiv: Individual, g: Rng)
      returns (indiv': Individual, g': Rng, ghost penalties: seq<real>, ghost results: seq<Individual>)
      modifies this
      requires ValidParams(p) && ValidInstance(inst, p) && InitialStockOk(inst, p)
      requires ChromosomesOk(p, indiv.chromRPM, indiv.chromTRK) && Valid()
      ensures Valid() && ChromosomesOk(p, indiv'.chromRPM, indiv'.chromTRK)
      ensures g'.stream == g.stream
      ensures Searches(old(penaltyCapacity), old(penaltyCoefficient), penalties, results, indiv', penaltyCapacity)
      ensures penaltyCoefficient == old(penaltyCoefficient)
      ensures |feasible| <= |old(feasible)| + 3 && |infeasible| <= |old(infeasible)| + 3
      ensures Archived(results, feasible, infeasible)
    {
      penalties := [penaltyCapacity];
      indiv', g' := SearchAndArchive(p, inst, indiv, g, []);
      results := [indiv'];
      assert [] + [indiv'] == results;
      SearchedOnce(penaltyCapacity, penaltyCoefficient, indiv');
      if !indiv'.eval.isFeasible {
        var raw;
        raw, g' := Draw(g');
        if GetRand(raw, 2) == 0 {
          ghost var c0 := penaltyCapacity;
          indiv', g', penalties, results := Repair(p, inst, indiv', g', penalties, results);
          RepairRecord(c0, penaltyCoefficient, penalties, results, indiv', penaltyCapacity);
        }
      }
    }

    /**
     * The repair of educateAndRepair (Population.cpp:37-49): the first
     * search's infeasible result is searched again with ten times the
     * penalty and archived, and if still infeasible searched with a hundred
     * times the penalty and archived; the penalty is then set to
     * penaltyCoefficient. `penalties` and `results` extend the record of
     * the first search.
     */
    method Repair(p: Params, inst: Instance, indiv: Individual, g: Rng, ghost penalties0: seq<real>,
                  ghost results0: seq<Individual>)
      returns (indiv': Individual, g': Rng, ghost penalties: seq<real>, ghost results: seq<Individual>)
      modifies this
      requires ValidParams(p) && ValidInstance(inst, p) && InitialStockOk(inst, p)
      requires ChromosomesOk(p, indiv.chromRPM, indiv.chromTRK) && Valid() && !indiv.eval.isFeasible
      requires penalties0 == [penaltyCapacity] && results0 == [indiv] && Archived(results0, feasible, infeasible)
      ensures Valid() && ChromosomesOk(p, indiv'.chromRPM, indiv'.chromTRK)
      ensures g'.stream == g.stream
      ensures 2 <= |penalties| == |results| <= 3 && indiv' == results[|results| - 1]
      ensures penalties[0] == old(penaltyCapacity) && results[0] == indiv
      ensures penalties[1] == 10.0 * penalties[0] && (|penalties| == 3 ==> penalties[2] == 10.0 * penalties[1])
      ensures !results[0].eval.isFeasible && (|results| == 3 ==> !results[1].eval.isFeasible)
      ensures |results| == 2 ==> results[1].eval.isFeasible
      ensures penaltyCapacity == old(penaltyCoefficient) && penaltyCoefficient == old(penaltyCoefficient)
      ensures |feasible| <= |old(feasible)| + 2 && |infeasible| <= |old(infeasible)| + 2
      ensures Archived(results, feasible, infeasible)
    {
      var c := penaltyCapacity;
      penaltyCapacity := c * 10.0;
      var second;
      second, g' := SearchAndArchive(p, inst, indiv, g, results0);
      indiv', penalties, results := second, [c, c * 10.0], [indiv, second];
      assert results0 + [second] == results;
      if !second.eval.isFeasible {
        penaltyCapacity := c * 10.0 * 10.0;
        indiv', g' := SearchAndArchive(p, inst, second, g', results);
        assert results + [indiv'] == [indiv, second, indiv'];
        penalties, results := [c, c * 10.0, c * 10.0 * 10.0], [indiv, second, indiv'];
      }
      penaltyCapacity := penaltyCoefficient;
    }

    /**
     * One search of educateAndRepair and the addIndividualToSubpopulation
     * after it (Population.cpp:29-32, 39-41, 45-47): the solution is searched
     * with the current penalty; the solutions archived before stay archived,
     * the result is now in its side's archive, and every archive keeps the
     * routes it held.
     */
    method SearchAndArchive(p: Params, inst: Instance, indiv: Individual, g: Rng, ghost before: seq<Individual>)
      returns (indiv': Individual, g': Rng)
      modifies this
      requires ValidParams(p) && ValidInstance(inst, p) && InitialStockOk(inst, p)
      requires ChromosomesOk(p, indiv.chromRPM, indiv.chromTRK) && Valid() && Archived(before, feasible, infeasible)
      ensures Valid() && ChromosomesOk(p, indiv'.chromRPM, indiv'.chromTRK) && g'.stream == g.stream
      ensures Archived(before + [indiv'], feasible, infeasible)
      ensures |feasible| <= |old(feasible)| + 1 && |infeasible| <= |old(infeasible)| + 1
      ensures forall k :: k in Keys(old(feasible)) ==> k in Keys(feasible)
      ensures forall k :: k in Keys(old(infeasible)) ==> k in Keys(infeasible)
      ensures penaltyCoefficient == old(penaltyCoefficient) && penaltyCapacity == old(penaltyCapacity)
    {
      indiv', g' := Educate(p, inst, penaltyCapacity, indiv, g);
      ghost var f0, i0, lf0, li0 := feasible, infeasible, latestFeasible, latestInfeasible;
      var added := AddIndividualToSubpopulation(indiv');
      AdmittedKeeps(f0, lf0, indiv', added, indiv'.eval.isFeasible, feasible, latestFeasible);
      AdmittedKeeps(i0, li0, indiv', added, !indiv'.eval.isFeasible, infeasible, latestInfeasible);
    }
  }

  /**
   * One archive after addIndividualToSubpopulation: untouched when the
   * solution was not added; otherwise rescored, after gaining the solution
   * when it joins this side, and with the solution appended to the side's
   * latest buffer.
   */
  ghost predicate Admitted(s0: seq<Individual>, l0: seq<Individual>, x: Individual, added: bool, joins: bool,
                           s: seq<Individual>, l: seq<Individual>)
  {
    && (!added ==> s == s0 && l == l0)
    && (added ==> s == Rescored(if joins then s0 + [x] else s0) && l == (if joins then l0 + [x] else l0))
    && |s| == |s0| + (if added && joins then 1 else 0)
    && AllNonEmpty(s)
    && (DuplicateFree(s0) ==> DuplicateFree(s))
  }

  /**
   * The record of educateAndRepair's searches, started at penalty c0 with
   * coefficient coef: one to three searches ending with `last`, each at ten
   * times the penalty of the one before, every one but the last infeasible,
   * the second feasible when it is the last; the penalty ends at c0 after one
   * search and at coef after a repair.
   */
  ghost predicate Searches(c0: real, coef: real, penalties: seq<real>, results: seq<Individual>, last: Individual, cap: real) {
    && 1 <= |penalties| == |results| <= 3 && last == results[|results| - 1]
    && penalties[0] == c0
    && (forall k :: 1 <= k < |penalties| ==> penalties[k] == 10.0 * penalties[k - 1])
    && (forall k :: 0 <= k < |results| - 1 ==> !results[k].eval.isFeasible)
    && (|results| == 2 ==> results[1].eval.isFeasible)
    && (|results| == 1 ==> cap == c0)
    && (|results| > 1 ==> cap == coef)
  }

  lemma SearchedOnce(c0: real, coef: real, x: Individual)
    ensures Searches(c0, coef, [c0], [x], x, c0)
  {
  }

  /** A repair's two or three searches, each checked in turn, make a record of educateAndRepair. */
  lemma RepairRecord(c0: real, coef: real, penalties: seq<real>, results: seq<Individual>, last: Individual, cap: real)
    requires 2 <= |penalties| == |results| <= 3 && last == results[|results| - 1]
    requires penalties[0] == c0 && cap == coef
    requires penalties[1] == 10.0 * penalties[0] && (|penalties| == 3 ==> penalties[2] == 10.0 * penalties[1])
    requires !results[0].eval.isFeasible && (|results| == 3 ==> !results[1].eval.isFeasible)
    requires |results| == 2 ==> results[1].eval.isFeasible
    ensures Searches(c0, coef, penalties, results, last, cap)
  {
  }

  /** Every solution listed has its routes in the archive of its side. */
  ghost predicate Archived(listed: seq<Individual>, feasible: seq<Individual>, infeasible: seq<Individual>) {
    forall k :: 0 <= k < |listed| ==> Key(listed[k]) in Keys(if listed[k].eval.isFeasible then feasible else infeasible)
  }

  /**
   * An archive after addIndividualToSubpopulation keeps every route pair it
   * held, and holds the offered solution's when the solution joins this side.
   */
  lemma AdmittedKeeps(s0: seq<Individual>, l0: seq<Individual>, x: Individual, added: bool, joins: bool,
                      s: seq<Individual>, l: seq<Individual>)
    requires Admitted(s0, l0, x, added, joins, s, l)
    requires joins ==> (added <==> Key(x) !in Keys(s0))
    ensures forall k :: k in Keys(s0) ==> k in Keys(s)
    ensures joins ==> Key(x) in Keys(s)
  {
    if added {
      var u := if joins then s0 + [x] else s0;
      RescoredKeys(u);
      KeysAppend(s0, [x]);
      forall k | k in Keys(u) ensures k in Keys(s) {
        assert k in multiset(Keys(s));
      }
      assert Keys(s0) <= Keys(u);
      if joins {
        assert Keys(u)[|s0|] == Key(x);
      }
    }
  }

  /** addIndividualToSubpopulation on one archive (Population.cpp:259-267). */
  method Admit(s0: seq<Individual>, l0: seq<Individual>, x: Individual, added: bool, joins: bool)
    returns (s: seq<Individual>, l: seq<Individual>)
    requires AllNonEmpty(s0) && AllNonEmpty([x]) && (added && joins ==> Key(x) !in Keys(s0))
    ensures Admitted(s0, l0, x, added, joins, s, l)
  {
    s, l := s0, l0;
    if added {
      AppendedOk(s0, x, joins);
      if joins {
        s, l := s0 + [x], l0 + [x];
      }
      s := Rescore(s);
    }
  }

  /**
   * One archive after sizeControl: once it has reached the maximum size it
   * is ranked and cut to its mu best by biased fitness; below that size it
   * is left alone. Either way it only loses solutions.
   */
  ghost function SizeControlled(s: seq<Individual>, maxSize: int, mu: int): (r: seq<Individual>)
    requires 0 <= mu <= maxSize
    ensures |r| == (if |s| >= maxSize then mu else |s|)
    ensures multiset(Keys(r)) <= multiset(Keys(s))
    ensures AllNonEmpty(s) ==> AllNonEmpty(r)
    ensures DuplicateFree(s) ==> DuplicateFree(r)
  {
    if |s| >= maxSize then
      RankingKeys(s);
      TruncateKeys(Ranking(s), mu);
      SubKeysOk(s, Truncate(Ranking(s), mu));
      Truncate(Ranking(s), mu)
    else
      s
  }

  /** A solution set drawn from another keeps its non-empty routes and its lack of duplicates. */
  lemma SubKeysOk(a: seq<Individual>, b: seq<Individual>)
    requires multiset(Keys(b)) <= multiset(Keys(a))
    ensures AllNonEmpty(a) ==> AllNonEmpty(b)
    ensures DuplicateFree(a) ==> DuplicateFree(b)
  {
    if AllNonEmpty(a) {
      NonEmptyPerm(a, b);
    }
    if DuplicateFree(a) {
      DuplicateFreeSub(a, b);
    }
  }

  /** sizeControl on one archive, guard included (Population.cpp:54-69). */
  method ControlArchive(s0: seq<Individual>, maxSize: int, mu: int) returns (s: seq<Individual>)
    requires AllNonEmpty(s0) && 0 <= mu <= maxSize
    ensures s == SizeControlled(s0, maxSize, mu) && AllNonEmpty(s)
  {
    s := s0;
    if |s0| >= maxSize {
      s := ControlOne(s0, mu);
    }
  }

  /** sizeControl on one archive: rank, sort by biased fitness, keep the first mu (Population.cpp:56-59). */
  method ControlOne(s: seq<Individual>, mu: int) returns (r: seq<Individual>)
    requires AllNonEmpty(s) && 0 <= mu <= |s|
    ensures r == Truncate(Ranking(s), mu) && |r| == mu
    ensures AllNonEmpty(r) && (DuplicateFree(s) ==> DuplicateFree(r))
  {
    RankingKeys(s);
    TruncateKeys(Ranking(s), mu);
    NonEmptyPerm(s, Truncate(Ranking(s), mu));
    if DuplicateFree(s) {
      DuplicateFreeSub(s, Truncate(Ranking(s), mu));
    }
    r := GetBiasedFitness(s);
    r := SortBy(r, BiasKey);
    r := r[..mu];
  }

  /** The first step of diversification on one archive: its best mu / 3 (Population.cpp:179-184). */
  method KeepBest(s: seq<Individual>, mu: int) returns (r: seq<Individual>)
    requires AllNonEmpty(s) && mu >= 0
    ensures r == Kept(s, mu) && AllNonEmpty(r)
  {
    r := SortBy(s, BiasKey);
    KeysPerm(r, s);
    NonEmptyPerm(s, r);
    if |r| > mu / 3 {
      r := r[..mu / 3];
    }
  }

  /** The candidate loop of diversification (Population.cpp:187-209), reading newcomers from `newcomers`. */
  method Candidates(mu: int, newcomers: seq<Individual>, keptF: seq<Individual>, keptI: seq<Individual>)
    returns (candF: seq<Individual>, candI: seq<Individual>, ghost used: nat)
    ensures used <= |newcomers|
    ensures candF == NewCandidates(newcomers[..used], keptF, true)
    ensures candI == NewCandidates(newcomers[..used], keptI, false)
    ensures forall u :: 0 <= u < used ==> Continues(newcomers[..u], keptF, keptI, mu)
    ensures used == |newcomers| || !Continues(newcomers[..used], keptF, keptI, mu)
  {
    candF, candI := [], [];
    var totalSize := |keptF| + |keptI|;
    var i := 0;
    while (|candF| + |keptF| <= mu || |candI| + |keptI| <= mu) && i < |newcomers|
      invariant 0 <= i <= |newcomers|
      invariant candF == NewCandidates(newcomers[..i], keptF, true)
      invariant candI == NewCandidates(newcomers[..i], keptI, false)
      invariant totalSize == |keptF| + |keptI| + |candF| + |candI|
      invariant forall u :: 0 <= u < i ==> Continues(newcomers[..u], keptF, keptI, mu)
    {
      if totalSize >= 4 * mu {
        break;
      }
      assert Continues(newcomers[..i], keptF, keptI, mu);
      var x := newcomers[i];
      NewCandidatesStep(newcomers, i, keptF, true);
      NewCandidatesStep(newcomers, i, keptI, false);
      if x.eval.isFeasible && Key(x) !in Keys(keptF) {
        candF := candF + [x];
        totalSize := totalSize + 1;
      }
      if !x.eval.isFeasible && Key(x) !in Keys(keptI) {
        candI := candI + [x];
        totalSize := totalSize + 1;
      }
      i := i + 1;
    }
    used := i;
  }

  /** getSimilarity, getBiasedFitness and the sort by biased fitness on a candidate list (Population.cpp:210-219). */
  method Score(cands: seq<Individual>) returns (r: seq<Individual>)
    requires AllNonEmpty(cands)
    ensures r == Ordered(cands) && AllNonEmpty(r)
  {
    RescoredKeys(cands);
    r := GetSimilarity(cands);
    r := GetBiasedFitness(r);
    assert r == Rescored(cands);
    r := SortBy(r, BiasKey);
    KeysPerm(r, Rescored(cands));
    NonEmptyPerm(Rescored(cands), r);
  }

  /** The refill loop of diversification (Population.cpp:221-231). */
  method Refill(archive: seq<Individual>, cands: seq<Individual>, mu: int) returns (r: seq<Individual>)
    ensures r == Refilled(archive, cands, mu)
  {
    r := archive;
    var c := cands;
    while |r| <= mu && |c| != 0
      invariant Refilled(r, c, mu) == Refilled(archive, cands, mu)
      decreases |c|
    {
      r := r + [c[|c| - 1]];
      c := c[..|c| - 1];
    }
  }

  /** Refilling from solutions with non-empty routes keeps every route non-empty. */
  lemma {:induction false} RefilledOk(archive: seq<Individual>, cands: seq<Individual>, mu: int)
    requires AllNonEmpty(archive) && AllNonEmpty(cands)
    ensures AllNonEmpty(Refilled(archive, cands, mu))
    decreases |cands|
  {
    if |archive| <= mu && |cands| != 0 {
      var last := cands[|cands| - 1];
      assert AllNonEmpty(archive + [last]);
      RefilledOk(archive + [last], cands[..|cands| - 1], mu);
    }
  }

  /** getSimilarity then getBiasedFitness on one archive (Population.cpp:278-281). */
  method Rescore(s: seq<Individual>) returns (r: seq<Individual>)
    requires AllNonEmpty(s)
    ensures r == Rescored(s) && AllNonEmpty(r)
  {
    RescoredKeys(s);
    r := GetSimilarity(s);
    r := GetBiasedFitness(r);
  }

  /** An archive that gains a solution it lacked stays well formed once rescored. */
  lemma AppendedOk(s: seq<Individual>, x: Individual, grows: bool)
    requires AllNonEmpty(s) && AllNonEmpty([x]) && (grows ==> Key(x) !in Keys(s))
    ensures var s' := if grows then s + [x] else s;
            && AllNonEmpty(s') && AllNonEmpty(Rescored(s')) && |Rescored(s')| == |s'|
            && (DuplicateFree(s) ==> DuplicateFree(Rescored(s')))
  {
    var s' := if grows then s + [x] else s;
    assert AllNonEmpty(s') by {
      forall i | 0 <= i < |s'| ensures NonEmpty(s'[i].chromTRK) && NonEmpty(s'[i].chromRPM) {
        if i == |s| {
          assert s'[i] == [x][0];
        }
      }
    }
    if grows && DuplicateFree(s) {
      DuplicateFreeAppend(s, x);
    }
    RescoredKeys(s');
  }

  /** localSearch.run as the population uses it (LocalSearch.cpp:15-62). */
  method Educate(p: Params, inst: Instance, penaltyCapacity: real, indiv: Individual, g: Rng) returns (indiv': Individual, g': Rng)
    requires ValidParams(p) && ValidInstance(inst, p) && InitialStockOk(inst, p)
    requires ChromosomesOk(p, indiv.chromRPM, indiv.chromTRK)
    ensures ChromosomesOk(p, indiv'.chromRPM, indiv'.chromTRK) && AllNonEmpty([indiv'])
    ensures indiv' == indiv || Evaluated(p, indiv'.eval, penaltyCapacity)
    ensures indiv'.eval.objVal <= indiv.eval.objVal
    ensures g'.stream == g.stream
  {
    ghost var tried, results;
    indiv', g', tried, results := Run(p, inst, penaltyCapacity, indiv, g);
  }

  /** The rest of diversification on one side: score the candidates, sort them and refill (Population.cpp:210-231). */
  method Replenish(kept: seq<Individual>, cands: seq<Individual>, mu: int, ghost read: seq<Individual>, ghost feasibleSide: bool)
    returns (r: seq<Individual>)
    requires AllNonEmpty(kept) && AllNonEmpty(read) && cands == NewCandidates(read, kept, feasibleSide)
    ensures r == Refilled(kept, Ordered(cands), mu) && AllNonEmpty(r)
  {
    NewCandidatesNonEmpty(read, kept, feasibleSide);
    var scored := Score(cands);
    r := Refill(kept, scored, mu);
    RefilledOk(kept, scored, mu);
  }

  /** diversification on the two archives as values (Population.cpp:176-234). */
  method Diversify(f0: seq<Individual>, i0: seq<Individual>, mu: int, newcomers: seq<Individual>)
    returns (f: seq<Individual>, i: seq<Individual>, ghost used: nat)
    requires ArchivesOk(f0, i0) && mu >= 0 && AllNonEmpty(newcomers)
    ensures Diversified(f0, i0, mu, newcomers, used, f, i) && ArchivesOk(f, i)
  {
    var keptF := KeepBest(f0, mu);
    var keptI := KeepBest(i0, mu);
    var candF, candI;
    candF, candI, used := Candidates(mu, newcomers, keptF, keptI);
    f := Replenish(keptF, candF, mu, newcomers[..used], true);
    i := Replenish(keptI, candI, mu, newcomers[..used], false);
  }
}
