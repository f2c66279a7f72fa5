/*
 * The genetic driver (Genetic.cpp): the ordered crossover of two routes,
 * the crossover of two solutions route by route, the stopping rule and the
 * counters of the main loop.
 */
module Genetics {
  import opened Random
  import opened Instances
  import opened Schemes
  import opened Sorting
  import opened Individuals
  import opened LocalSearch
  import opened Similarity
  import opened Populations

  datatype Option<T> = None | Some(value: T)

  // ---------------------------------------------------------------------
  // orderedCrossover (Genetic.cpp:89-149)
  // ---------------------------------------------------------------------

  /**
   * The two cut points: t drawn from [0, m), y redrawn from [0, m) until it
   * differs from t, then the two put in order (Genetic.cpp:95-104).
   */
  function CutPair(raw1: nat, raw2: nat, m: nat): (c: (int, int))
    requires m >= 2
    ensures 0 <= c.0 < c.1 < m
  {
    var t := GetRand(raw1, m);
    var y := PickOther(raw2, m, t + 1) - 1;
    if t > y then (y, t) else (t, y)
  }

  /** Every ordered pair of distinct cut points is drawn by some pair of draws. */
  lemma CutPairCovers(m: nat, t: int, y: int)
    requires m >= 2 && 0 <= t < y < m
    ensures exists raw1: nat, raw2: nat :: CutPair(raw1, raw2, m) == (t, y)
  {
    GetRandBelow(t, m);
    PickOtherCovers(m, t + 1, y + 1);
    var raw2: nat :| PickOther(raw2, m, t + 1) == y + 1;
    assert CutPair(t, raw2, m) == (t, y);
  }

  /** routeB read circularly from index k. */
  function Rotated(b: seq<int>, k: int): (r: seq<int>)
    requires 0 <= k <= |b|
    ensures |r| == |b|
    ensures forall i :: 0 <= i < |b| ==> r[i] == b[if k + i < |b| then k + i else k + i - |b|]
  {
    b[k..] + b[..k]
  }

  /**
   * One place of the offspring buffer while a sweep fills it: routeA's
   * segment on [t, y]; the values written so far from y + 1 on, wrapping
   * round to the front; and 0, the buffer's initial value, where nothing
   * was written.
   */
  function Cell(n: int, t: int, y: int, seg: seq<int>, written: seq<int>, k: int): int
    requires 0 <= t <= y && |seg| == y - t + 1
  {
    if t <= k <= y then seg[k - t]
    else if k > y then (if 0 <= k - y - 1 < |written| then written[k - y - 1] else 0)
    else (if 0 <= n - y - 1 + k < |written| then written[n - y - 1 + k] else 0)
  }

  /** The whole buffer. */
  function Placed(n: nat, t: int, y: int, seg: seq<int>, written: seq<int>): (r: seq<int>)
    requires 0 <= t <= y < n && |seg| == y - t + 1
    ensures |r| == n
  {
    seq(n, k requires 0 <= k < n => Cell(n, t, y, seg, written, k))
  }

  /**
   * What the type-0 sweep writes, read in sweep order from `s`: each value
   * that is not in the copied segment, not the depot 0 (the unwritten
   * places still hold 0) and not written before.
   */
  function Fresh(s: seq<int>, seg: seq<int>): seq<int> {
    if s == [] then []
    else
      var w := Fresh(s[..|s| - 1], seg);
      var v := s[|s| - 1];
      if v in seg || v == 0 || v in w then w else w + [v]
  }

  /**
   * The crossover's outcome for cut points t < y: None when the type-0
   * sweep can never fill the buffer, so that the program's loop does not
   * end. Type 1 takes routeB's values in sweep order, type 0 its fresh
   * values, any other type writes nothing beyond the segment.
   */
  function Crossed(a: seq<int>, b: seq<int>, routeType: int, t: int, y: int): (r: Option<seq<int>>)
    requires 0 <= t < y < |a| && y < |b|
    ensures r.Some? ==> |r.value| == |b| && r.value[t..y + 1] == a[t..y + 1]
  {
    var n := |b|;
    var seg := a[t..y + 1];
    var need := n - (y - t + 1);
    var sweep := Rotated(b, y + 1);
    if routeType == 1 then Some(Placed(n, t, y, seg, sweep[..need]))
    else if routeType == 0 then
      var w := Fresh(sweep, seg);
      if |w| >= need then Some(Placed(n, t, y, seg, w[..need])) else None
    else Some(Placed(n, t, y, seg, []))
  }

  /** Where the sweep's index stands after `s` advances from y + 1, wrapped back to 0 only on the next read. */
  function Lazy(n: int, y: int, s: int): int {
    if y + 1 + s <= n then y + 1 + s else y + 1 + s - n
  }

  /** The place the sweep reads or writes after `s` advances from y + 1, wrapped. */
  function Slot(n: int, y: int, s: int): int {
    if y + 1 + s < n then y + 1 + s else y + 1 + s - n
  }

  /**
   * Where the write index of the type-0 sweep stands after `count` writes:
   * as Lazy, except that a read which wrapped the index without writing
   * leaves it at 0 instead of at the end.
   */
  predicate WriteAt(index: int, n: int, y: int, count: int) {
    index == Lazy(n, y, count) || (index == 0 && Lazy(n, y, count) == n)
  }

  /** Wrapping an index at the end gives the slot, and the slot's successor is where the index stands next. */
  lemma WrapIndex(index: int, n: int, y: int, s: int)
    requires 0 <= y < n && 0 <= s < n && WriteAt(index, n, y, s)
    ensures 0 <= Slot(n, y, s) < n
    ensures (if index == n then 0 else index) == Slot(n, y, s)
    ensures Slot(n, y, s) + 1 == Lazy(n, y, s + 1)
  {
  }

  /** The write index has come round to t exactly when every place outside the segment is written. */
  lemma WriteDone(index: int, n: int, t: int, y: int, count: int)
    requires 0 <= t < y < n && 0 <= count <= n - (y - t + 1) && WriteAt(index, n, y, count)
    ensures index == t || (t == 0 && index == n) <==> count == n - (y - t + 1)
  {
  }

  /** Writing the next value into its place extends the placed values by one. */
  lemma PlacedSnoc(n: nat, t: int, y: int, seg: seq<int>, written: seq<int>, v: int)
    requires 0 <= t <= y < n && |seg| == y - t + 1 && |written| < n - (y - t + 1)
    ensures var slot := Slot(n, y, |written|);
            0 <= slot < n && (slot < t || y < slot)
            && Placed(n, t, y, seg, written + [v]) == Placed(n, t, y, seg, written)[slot := v]
  {
  }

  /** While places are left, a value is in the buffer exactly when it is in the segment, is 0 or was written. */
  lemma PlacedHas(n: nat, t: int, y: int, seg: seq<int>, written: seq<int>, v: int)
    requires 0 <= t <= y < n && |seg| == y - t + 1 && |written| < n - (y - t + 1)
    ensures v in Placed(n, t, y, seg, written) <==> v in seg || v == 0 || v in written
  {
    var r := Placed(n, t, y, seg, written);
    var slot := Slot(n, y, |written|);
    if v in seg {
      var i :| 0 <= i < |seg| && seg[i] == v;
      assert r[t + i] == v;
    } else if v == 0 {
      assert r[slot] == 0;
    } else if v in written {
      var j :| 0 <= j < |written| && written[j] == v;
      if y + 1 + j < n {
        assert r[y + 1 + j] == v;
      } else {
        assert r[y + 1 + j - n] == v;
      }
    }
  }

  /** The sweep's next value is routeB's value at the wrapped read index. */
  lemma SweepRead(b: seq<int>, y: int, i: int)
    requires 0 <= y < |b| && 0 <= i < |b|
    ensures 0 <= Slot(|b|, y, i) < |b|
    ensures Rotated(b, y + 1)[..i + 1] == Rotated(b, y + 1)[..i] + [b[Slot(|b|, y, i)]]
  {
  }

  /** One more value read by the type-0 sweep: it is written when it is fresh. */
  lemma SweepStep(b: seq<int>, y: int, i: int, seg: seq<int>)
    requires 0 <= y < |b| && 0 <= i < |b|
    ensures 0 <= Slot(|b|, y, i) < |b|
    ensures var s := Rotated(b, y + 1); var v := b[Slot(|b|, y, i)]; var w := Fresh(s[..i], seg);
            Fresh(s[..i + 1], seg) == if v in seg || v == 0 || v in w then w else w + [v]
  {
    var s := Rotated(b, y + 1);
    SweepRead(b, y, i);
    assert s[..i + 1][..i] == s[..i];
  }

  /** A sweep of fewer values writes a prefix of what the longer sweep writes. */
  lemma {:induction false} FreshPrefix(s: seq<int>, i: int, seg: seq<int>)
    requires 0 <= i <= |s|
    ensures Fresh(s[..i], seg) <= Fresh(s, seg)
    decreases |s|
  {
    if i < |s| {
      var front := s[..|s| - 1];
      FreshPrefix(front, i, seg);
      assert front[..i] == s[..i];
    } else {
      assert s[..i] == s;
    }
  }

  /**
   * The type-1 sweep (Genetic.cpp:134-146): the read and write indices
   * start together at y + 1 and wrap together, so every place outside the
   * segment receives routeB's value at the same index.
   */
  method SweepAll(routeB: seq<int>, buffer: array<int>, t: int, y: int, ghost seg: seq<int>)
    modifies buffer
    requires buffer.Length == |routeB| && 0 <= t < y < |routeB| && |seg| == y - t + 1
    requires buffer[..] == Placed(|routeB|, t, y, seg, [])
    ensures buffer[..] == Placed(|routeB|, t, y, seg, Rotated(routeB, y + 1)[..|routeB| - (y - t + 1)])
  {
    var n := |routeB|;
    ghost var need := n - (y - t + 1);
    ghost var sweep := Rotated(routeB, y + 1);
    var indexB, indexC1 := y + 1, y + 1;
    ghost var steps := 0;
    assert sweep[..0] == [];
    while indexC1 != t
      invariant 0 <= steps <= need
      invariant indexB == indexC1 == Lazy(n, y, steps)
      invariant buffer[..] == Placed(n, t, y, seg, sweep[..steps])
      decreases need - steps
    {
      WrapIndex(indexC1, n, y, steps);
      if indexB == n {
        indexB := 0;
      }
      if indexC1 == n {
        indexC1 := 0;
        if indexC1 == t {
          break;
        }
      }
      PlacedSnoc(n, t, y, seg, sweep[..steps], routeB[indexB]);
      SweepRead(routeB, y, steps);
      buffer[indexC1] := routeB[indexB];
      indexC1 := indexC1 + 1;
      indexB := indexB + 1;
      steps := steps + 1;
    }
  }

  /**
   * Where the type-0 sweep stands after reading `readCount` values of b:
   * `written` holds the fresh values among them, and the read and write
   * indices stand after the values read and written.
   */
  ghost predicate DistinctState(b: seq<int>, t: int, y: int, seg: seq<int>, readCount: int, written: seq<int>,
                                indexB: int, indexC1: int)
    requires 0 <= t < y < |b|
  {
    && 0 <= readCount <= |b|
    && written == Fresh(Rotated(b, y + 1)[..readCount], seg) && |written| <= |b| - (y - t + 1)
    && WriteAt(indexB, |b|, y, readCount) && indexB != 0 && WriteAt(indexC1, |b|, y, |written|)
  }

  /** One read of the type-0 sweep keeps its state, writing the value read exactly when it is fresh. */
  lemma DistinctStep(b: seq<int>, t: int, y: int, seg: seq<int>, readCount: int, written: seq<int>,
                     indexB: int, indexC1: int, iB: int, iC: int)
    requires 0 <= t < y < |b| && DistinctState(b, t, y, seg, readCount, written, indexB, indexC1)
    requires readCount < |b| && indexC1 != t && !(t == 0 && indexC1 == |b|)
    requires iB == (if indexB == |b| then 0 else indexB) && iC == (if indexC1 == |b| then 0 else indexC1)
    ensures 0 <= iB < |b| && iC == Slot(|b|, y, |written|) && |written| < |b| - (y - t + 1)
    ensures var v := b[iB];
            v in seg || v == 0 || v in written ==>
            DistinctState(b, t, y, seg, readCount + 1, written, iB + 1, iC)
    ensures var v := b[iB];
            !(v in seg || v == 0 || v in written) ==>
            DistinctState(b, t, y, seg, readCount + 1, written + [v], iB + 1, iC + 1)
  {
    var n := |b|;
    WriteDone(indexC1, n, t, y, |written|);
    WrapIndex(indexB, n, y, readCount);
    WrapIndex(indexC1, n, y, |written|);
    SweepStep(b, y, readCount, seg);
  }

  /** Where the type-0 sweep stops: complete when the write index came round, and then every place is filled. */
  lemma DistinctOutcome(b: seq<int>, t: int, y: int, seg: seq<int>, readCount: int, written: seq<int>, indexC1: int)
    requires 0 <= t < y < |b| && 0 <= readCount <= |b|
    requires written == Fresh(Rotated(b, y + 1)[..readCount], seg) && |written| <= |b| - (y - t + 1)
    requires WriteAt(indexC1, |b|, y, |written|)
    requires indexC1 == t || (t == 0 && indexC1 == |b|) || readCount == |b|
    ensures var w := Fresh(Rotated(b, y + 1), seg); var need := |b| - (y - t + 1);
            && (indexC1 == t || (t == 0 && indexC1 == |b|) <==> |w| >= need)
            && (|w| >= need ==> written == w[..need])
  {
    var sweep := Rotated(b, y + 1);
    var need := |b| - (y - t + 1);
    FreshPrefix(sweep, readCount, seg);
    WriteDone(indexC1, |b|, t, y, |written|);
    if readCount == |b| {
      assert sweep[..readCount] == sweep;
    }
  }

  /**
   * The type-0 sweep (Genetic.cpp:114-129): a value of routeB is written
   * only when the buffer does not hold it yet. `readCount` counts the values
   * read; once a whole round of routeB has been read without filling the
   * buffer, every value of routeB is in the buffer and the program's loop
   * would go on forever, which `complete` reports as false.
   */
  method SweepDistinct(routeB: seq<int>, buffer: array<int>, t: int, y: int, ghost seg: seq<int>)
    returns (complete: bool)
    modifies buffer
    requires buffer.Length == |routeB| && 0 <= t < y < |routeB| && |seg| == y - t + 1
    requires buffer[..] == Placed(|routeB|, t, y, seg, [])
    ensures var w := Fresh(Rotated(routeB, y + 1), seg); var need := |routeB| - (y - t + 1);
            && (complete <==> |w| >= need)
            && (complete ==> buffer[..] == Placed(|routeB|, t, y, seg, w[..need]))
  {
    var n := |routeB|;
    var indexB, indexC1 := y + 1, y + 1;
    var readCount := 0;
    ghost var written: seq<int> := [];
    assert Rotated(routeB, y + 1)[..0] == [];
    while indexC1 != t && readCount < n
      invariant DistinctState(routeB, t, y, seg, readCount, written, indexB, indexC1)
      invariant buffer[..] == Placed(n, t, y, seg, written)
      decreases n - readCount
    {
      ghost var fromB, fromC1 := indexB, indexC1;
      if indexB == n {
        indexB := 0;
      }
      if indexC1 == n {
        indexC1 := 0;
        if indexC1 == t {
          break;
        }
      }
      DistinctStep(routeB, t, y, seg, readCount, written, fromB, fromC1, indexB, indexC1);
      var v := routeB[indexB];
      PlacedHas(n, t, y, seg, written, v);
      if v !in buffer[..] {
        PlacedSnoc(n, t, y, seg, written, v);
        buffer[indexC1] := v;
        indexC1 := indexC1 + 1;
        written := written + [v];
      }
      indexB := indexB + 1;
      readCount := readCount + 1;
    }
    DistinctOutcome(routeB, t, y, seg, readCount, written, indexC1);
    complete := indexC1 == t || (t == 0 && indexC1 == n);
  }

  // ---------------------------------------------------------------------
  // What the crossover produces
  // ---------------------------------------------------------------------

  /** With every place outside the segment written, the buffer is the tail of the writes, the segment, then their head. */
  lemma PlacedFull(n: nat, t: int, y: int, seg: seq<int>, w: seq<int>)
    requires 0 <= t <= y < n && |seg| == y - t + 1 && |w| == n - (y - t + 1)
    ensures Placed(n, t, y, seg, w) == w[n - y - 1..] + seg + w[..n - y - 1]
  {
    var r := w[n - y - 1..] + seg + w[..n - y - 1];
    assert |r| == n;
    forall k | 0 <= k < n
      ensures Placed(n, t, y, seg, w)[k] == r[k]
    {
      if k < t {
        assert r[k] == w[n - y - 1 + k];
      } else if k <= y {
        assert r[k] == seg[k - t];
      } else {
        assert r[k] == w[k - y - 1];
      }
    }
  }

  /**
   * Type 1 is the textbook copy crossover: routeB's own values outside the
   * segment and routeA's values inside it.
   */
  lemma CrossedCopies(a: seq<int>, b: seq<int>, t: int, y: int)
    requires 0 <= t < y < |a| && y < |b|
    ensures Crossed(a, b, 1, t, y) == Some(b[..t] + a[t..y + 1] + b[y + 1..])
  {
    var n := |b|;
    var need := n - (y - t + 1);
    var sweep := Rotated(b, y + 1);
    PlacedFull(n, t, y, a[t..y + 1], sweep[..need]);
    assert sweep[..need][n - y - 1..] == b[..t];
    assert sweep[..need][..n - y - 1] == b[y + 1..];
  }

  /** Dropping the last value of a route without repeats leaves one, which does not hold that value. */
  lemma DistinctLast(s: seq<int>)
    requires Distinct(s) && s != []
    ensures Distinct(s[..|s| - 1]) && s[|s| - 1] !in s[..|s| - 1]
  {
    var f := s[..|s| - 1];
    forall i | 0 <= i < |f|
      ensures f[i] != s[|s| - 1]
    {
      assert f[i] == s[i];
    }
  }

  /** A route has no repeated value exactly when every value occurs at most once. */
  lemma {:induction false} DistinctCounts(s: seq<int>)
    ensures Distinct(s) <==> forall x :: multiset(s)[x] <= 1
  {
    if s != [] {
      var f := s[..|s| - 1];
      var v := s[|s| - 1];
      DistinctCounts(f);
      assert s == f + [v];
      assert multiset(s) == multiset(f) + multiset{v};
      if Distinct(s) {
        DistinctLast(s);
      }
      if Distinct(f) && v !in f {
        AppendDistinct(f, v);
      }
      if forall x :: multiset(s)[x] <= 1 {
        assert multiset(s)[v] <= 1;
        forall x
          ensures multiset(f)[x] <= 1
        {
          assert multiset(s)[x] <= 1;
        }
      }
      if (forall x :: multiset(f)[x] <= 1) && multiset(f)[v] == 0 {
        forall x
          ensures multiset(s)[x] <= 1
        {
        }
      }
    }
  }

  /** The values of s outside the segment, in order. */
  function Outside(s: seq<int>, seg: seq<int>): seq<int> {
    if s == [] then []
    else
      var w := Outside(s[..|s| - 1], seg);
      if s[|s| - 1] in seg then w else w + [s[|s| - 1]]
  }

  /** The values of s inside the segment, in order. */
  function Inside(s: seq<int>, seg: seq<int>): seq<int> {
    if s == [] then []
    else
      var w := Inside(s[..|s| - 1], seg);
      if s[|s| - 1] in seg then w + [s[|s| - 1]] else w
  }

  /** The values outside and inside the segment share out the values of s; inside ones are those of s in the segment. */
  lemma {:induction false} OutsideInside(s: seq<int>, seg: seq<int>)
    ensures multiset(s) == multiset(Outside(s, seg)) + multiset(Inside(s, seg))
    ensures forall x :: x in Inside(s, seg) <==> x in s && x in seg
    ensures forall x :: x in Outside(s, seg) <==> x in s && x !in seg
  {
    if s != [] {
      var f := s[..|s| - 1];
      OutsideInside(f, seg);
      assert s == f + [s[|s| - 1]];
    }
  }

  /** On a route without repeats and without the depot, the type-0 sweep writes exactly the values outside the segment. */
  lemma {:induction false} FreshOutside(s: seq<int>, seg: seq<int>)
    requires Distinct(s) && 0 !in s
    ensures Fresh(s, seg) == Outside(s, seg)
  {
    if s != [] {
      var f := s[..|s| - 1];
      var v := s[|s| - 1];
      assert s == f + [v];
      DistinctLast(s);
      FreshOutside(f, seg);
      OutsideInside(f, seg);
    }
  }

  /** Reading routeB round from any place reads each of its values once. */
  lemma RotatedSame(b: seq<int>, k: int)
    requires 0 <= k <= |b|
    ensures multiset(Rotated(b, k)) == multiset(b)
  {
    assert b == b[..k] + b[k..];
  }

  /** The segment of a route holding the same values as a route without repeats has no repeats, and its values are in that route. */
  lemma SegmentOf(a: seq<int>, b: seq<int>, t: int, y: int)
    requires 0 <= t <= y < |a| && multiset(a) == multiset(b) && Distinct(b)
    ensures Distinct(a[t..y + 1]) && forall x :: x in a[t..y + 1] ==> x in b
  {
    var seg := a[t..y + 1];
    assert a == a[..t] + seg + a[y + 1..];
    assert multiset(seg) <= multiset(b);
    DistinctCounts(b);
    DistinctCounts(seg);
    forall x | x in seg
      ensures x in b
    {
      assert multiset(seg)[x] > 0;
    }
  }

  /** When a route without repeats holds every value of a segment without repeats, its values inside the segment are the segment's. */
  lemma InsideSegment(s: seq<int>, seg: seq<int>)
    requires Distinct(s) && Distinct(seg) && forall x :: x in seg ==> x in s
    ensures multiset(Inside(s, seg)) == multiset(seg)
  {
    var inside := Inside(s, seg);
    OutsideInside(s, seg);
    DistinctCounts(s);
    DistinctCounts(seg);
    assert multiset(inside) <= multiset(s);
    DistinctCounts(inside);
    forall x
      ensures multiset(inside)[x] == multiset(seg)[x]
    {
      if x in seg {
        assert x in inside;
      } else {
        assert x !in inside;
      }
    }
  }

  /** A route without repeats and without the depot, read round from any place, is again one. */
  lemma RotatedDistinct(b: seq<int>, k: int)
    requires 0 <= k <= |b| && Distinct(b) && 0 !in b
    ensures multiset(Rotated(b, k)) == multiset(b) && Distinct(Rotated(b, k)) && 0 !in Rotated(b, k)
    ensures forall x :: x in Rotated(b, k) <==> x in b
  {
    RotatedSame(b, k);
    DistinctCounts(b);
    DistinctCounts(Rotated(b, k));
    assert multiset(b)[0] == 0;
  }

  /** A route holding the same values as a route without repeats has none either. */
  lemma DistinctSame(r: seq<int>, b: seq<int>)
    requires multiset(r) == multiset(b) && Distinct(b)
    ensures Distinct(r)
  {
    DistinctCounts(b);
    DistinctCounts(r);
  }

  /** Putting the segment between the tail and the head of w keeps every value. */
  lemma SplitAround(w: seq<int>, k: int, seg: seq<int>, whole: multiset<int>)
    requires 0 <= k <= |w| && multiset(w) + multiset(seg) == whole
    ensures multiset(w[k..] + seg + w[..k]) == whole
  {
    assert w == w[..k] + w[k..];
  }

  /**
   * On a sweep without repeats and without the depot that holds every value
   * of a segment without repeats, the type-0 sweep writes every other value
   * of the sweep, one place for each.
   */
  lemma FreshFills(sweep: seq<int>, seg: seq<int>)
    requires Distinct(sweep) && 0 !in sweep && Distinct(seg) && forall x :: x in seg ==> x in sweep
    ensures multiset(Fresh(sweep, seg)) + multiset(seg) == multiset(sweep)
    ensures |Fresh(sweep, seg)| == |sweep| - |seg|
  {
    FreshOutside(sweep, seg);
    OutsideInside(sweep, seg);
    InsideSegment(sweep, seg);
    var w := Fresh(sweep, seg);
    assert |multiset(sweep)| == |multiset(w)| + |multiset(seg)|;
  }

  /**
   * Type 0 is the textbook order crossover: when routeA and routeB hold the
   * same stations, each once and the depot nowhere, the sweep fills the
   * buffer and the offspring again holds the same stations, each once.
   */
  lemma CrossedPermutes(a: seq<int>, b: seq<int>, t: int, y: int)
    requires 0 <= t < y < |a| && y < |b|
    requires multiset(a) == multiset(b) && Distinct(b) && 0 !in b
    ensures Crossed(a, b, 0, t, y).Some?
    ensures multiset(Crossed(a, b, 0, t, y).value) == multiset(b)
    ensures Distinct(Crossed(a, b, 0, t, y).value)
  {
    var n := |b|;
    var seg := a[t..y + 1];
    var sweep := Rotated(b, y + 1);
    RotatedDistinct(b, y + 1);
    SegmentOf(a, b, t, y);
    FreshFills(sweep, seg);
    var w := Fresh(sweep, seg);
    PlacedFull(n, t, y, seg, w);
    assert w[..n - (y - t + 1)] == w;
    var r := w[n - y - 1..] + seg + w[..n - y - 1];
    assert Crossed(a, b, 0, t, y) == Some(r);
    SplitAround(w, n - y - 1, seg, multiset(b));
    DistinctSame(r, b);
  }

  /** The cut points from the engine's next two draws (Genetic.cpp:95-104). */
  method DrawCuts(m: nat, g: Rng) returns (t: int, y: int, g': Rng)
    requires m >= 2
    ensures (t, y) == CutPair(g.stream(g.pos), g.stream(g.pos + 1), m)
    ensures g' == Rng(g.stream, g.pos + 2)
  {
    var raw1, raw2;
    raw1, g' := Draw(g);
    raw2, g' := Draw(g');
    t := GetRand(raw1, m);
    y := PickOther(raw2, m, t + 1) - 1;
    if t > y {
      t, y := y, t;
    }
  }

  /** The offspring buffer before the sweep: zeros, with routeA's segment copied on [t, y] (Genetic.cpp:105-109). */
  method SegmentBuffer(routeA: seq<int>, n: nat, t: int, y: int) returns (buffer: array<int>)
    requires 0 <= t < y < n && y < |routeA|
    ensures fresh(buffer) && buffer[..] == Placed(n, t, y, routeA[t..y + 1], [])
  {
    buffer := new int[n](_ => 0);
    forall k | t <= k <= y {
      buffer[k] := routeA[k];
    }
  }

  /**
   * orderedCrossover: routeB itself when either route has at most one
   * entry; otherwise the crossover for the drawn cut points, read from two
   * draws of the engine.
   */
  method OrderedCrossover(routeA: seq<int>, routeB: seq<int>, routeType: int, g: Rng)
    returns (offspring: Option<seq<int>>, g': Rng)
    ensures g'.stream == g.stream
    ensures var m := if |routeA| < |routeB| then |routeA| else |routeB|;
            && (m <= 1 ==> offspring == Some(routeB) && g' == g)
            && (m >= 2 ==> var c := CutPair(g.stream(g.pos), g.stream(g.pos + 1), m);
                           offspring == Crossed(routeA, routeB, routeType, c.0, c.1) && g'.pos == g.pos + 2)
  {
    var minSize := if |routeA| < |routeB| then |routeA| else |routeB|;
    if minSize <= 1 {
      return Some(routeB), g;
    }
    var t, y;
    t, y, g' := DrawCuts(minSize, g);
    var buffer := SegmentBuffer(routeA, |routeB|, t, y);
    ghost var seg := routeA[t..y + 1];
    if routeType == 0 {
      var complete := SweepDistinct(routeB, buffer, t, y, seg);
      offspring := if complete then Some(buffer[..]) else None;
    } else if routeType == 1 {
      SweepAll(routeB, buffer, t, y, seg);
      offspring := Some(buffer[..]);
    } else {
      offspring := Some(buffer[..]);
    }
  }

  /** The written values come from the sweep: type-0 writes are values read. */
  lemma {:induction false} FreshIn(s: seq<int>, seg: seq<int>)
    ensures forall x :: x in Fresh(s, seg) ==> x in s
  {
    if s != [] {
      var f := s[..|s| - 1];
      FreshIn(f, seg);
      assert s == f + [s[|s| - 1]];
    }
  }

  /** Every value of the buffer is a value of the segment, a written value or 0. */
  lemma PlacedValues(n: nat, t: int, y: int, seg: seq<int>, written: seq<int>)
    requires 0 <= t <= y < n && |seg| == y - t + 1
    ensures forall v :: v in Placed(n, t, y, seg, written) ==> v in seg || v in written || v == 0
  {
    var r := Placed(n, t, y, seg, written);
    forall v | v in r
      ensures v in seg || v in written || v == 0
    {
      var k :| 0 <= k < n && r[k] == v;
      assert r[k] == Cell(n, t, y, seg, written, k);
    }
  }

  /** Reading a route round from any place reads only its values. */
  lemma RotatedIn(b: seq<int>, k: int)
    requires 0 <= k <= |b|
    ensures forall x :: x in Rotated(b, k) ==> x in b
  {
    RotatedSame(b, k);
    forall x | x in Rotated(b, k)
      ensures x in b
    {
      assert multiset(Rotated(b, k))[x] > 0;
    }
  }

  /** The crossover brings in no new station: every value comes from routeA, from routeB or is the depot. */
  lemma CrossedIds(a: seq<int>, b: seq<int>, routeType: int, t: int, y: int)
    requires 0 <= t < y < |a| && y < |b| && Crossed(a, b, routeType, t, y).Some?
    ensures forall v :: v in Crossed(a, b, routeType, t, y).value ==> v in a || v in b || v == 0
  {
    var n := |b|;
    var seg := a[t..y + 1];
    var need := n - (y - t + 1);
    var sweep := Rotated(b, y + 1);
    RotatedIn(b, y + 1);
    assert forall x :: x in seg ==> x in a;
    var written: seq<int>;
    if routeType == 1 {
      written := sweep[..need];
    } else if routeType == 0 {
      written := Fresh(sweep, seg)[..need];
      FreshIn(sweep, seg);
    } else {
      written := [];
    }
    assert forall x :: x in written ==> x in b;
    assert Crossed(a, b, routeType, t, y).value == Placed(n, t, y, seg, written);
    PlacedValues(n, t, y, seg, written);
  }

  // ---------------------------------------------------------------------
  // crossoverOX (Genetic.cpp:163-211)
  // ---------------------------------------------------------------------

  /** A route with its first and last entry, the depot visits, erased. */
  function Stripped(route: seq<int>): (r: seq<int>)
    requires |route| >= 2
    ensures |r| == |route| - 2 && forall k :: 0 <= k < |r| ==> r[k] == route[k + 1]
  {
    route[1..|route| - 1]
  }

  /** `c` is what orderedCrossover may return for these routes: routeB, or the crossover at some cut pair. */
  ghost predicate Outcome(a: seq<int>, b: seq<int>, routeType: int, c: Option<seq<int>>) {
    var m := if |a| < |b| then |a| else |b|;
    if m <= 1 then c == Some(b)
    else exists t, y :: 0 <= t < y < m && Crossed(a, b, routeType, t, y) == c
  }

  /**
   * Whatever the cut pair: the crossover brings in no new station; type 1
   * always returns; type 0 returns on routes visiting the same stations,
   * each once and no depot, and then permutes them.
   */
  lemma OutcomeFacts(a: seq<int>, b: seq<int>, routeType: int, c: Option<seq<int>>)
    requires Outcome(a, b, routeType, c)
    ensures c.Some? ==> forall v :: v in c.value ==> v in a || v in b || v == 0
    ensures routeType == 1 ==> c.Some?
    ensures routeType == 0 && multiset(a) == multiset(b) && Distinct(b) && 0 !in b ==>
              c.Some? && multiset(c.value) == multiset(b) && Distinct(c.value)
  {
    var m := if |a| < |b| then |a| else |b|;
    if m >= 2 {
      var t, y :| 0 <= t < y < m && Crossed(a, b, routeType, t, y) == c;
      if c.Some? {
        CrossedIds(a, b, routeType, t, y);
      }
      if routeType == 0 && multiset(a) == multiset(b) && Distinct(b) && 0 !in b {
        CrossedPermutes(a, b, t, y);
      }
    }
  }

  /**
   * The offspring's truck route from the parents' truck routes: when both
   * have a station between the depot visits, the type-1 crossover of their
   * interiors between two depot visits; otherwise the first parent's route.
   */
  ghost predicate TruckChild(route1: seq<int>, route2: seq<int>, child: seq<int>)
    requires |route1| >= 2 && |route2| >= 2
  {
    if |route1| >= 3 && |route2| >= 3 then
      && |child| >= 2 && child[0] == 0 && child[|child| - 1] == 0
      && Outcome(Stripped(route1), Stripped(route2), 1, Some(child[1..|child| - 1]))
    else child == route1
  }

  /** The offspring's repairman route: the type-0 crossover of the interiors, between two depot visits. */
  ghost predicate RepairChild(route1: seq<int>, route2: seq<int>, child: seq<int>)
    requires |route1| >= 2 && |route2| >= 2
  {
    && |child| >= 2 && child[0] == 0 && child[|child| - 1] == 0
    && Outcome(Stripped(route1), Stripped(route2), 0, Some(child[1..|child| - 1]))
  }

  /**
   * Repairman routes the type-0 crossover handles: both visit the same
   * stations, each once and the depot only at the ends.
   */
  ghost predicate Proper(route1: seq<int>, route2: seq<int>)
    requires |route1| >= 2 && |route2| >= 2
  {
    multiset(Stripped(route1)) == multiset(Stripped(route2)) && Distinct(Stripped(route2)) && 0 !in Stripped(route2)
  }

  /** Between two depot visits, a route of station ids stays one. */
  lemma Wrapped(p: Params, mid: seq<int>)
    requires forall v :: v in mid ==> IsStation(p, v)
    ensures |[0] + mid + [0]| >= 2 && RouteIds(p, [0] + mid + [0])
    ensures ([0] + mid + [0])[1..|mid| + 1] == mid
  {
    var r := [0] + mid + [0];
    forall k | 0 <= k < |r|
      ensures IsStation(p, r[k])
    {
      if 0 < k <= |mid| {
        assert r[k] == mid[k - 1];
      }
    }
  }

  /**
   * The offspring of one crossover of two routes, wrapped between depot
   * visits: Some exactly when orderedCrossover returns, with the routes'
   * station ids.
   */
  method CrossRoute(p: Params, route1: seq<int>, route2: seq<int>, routeType: int, g: Rng)
    returns (child: Option<seq<int>>, g': Rng)
    requires |route1| >= 2 && |route2| >= 2 && RouteIds(p, route1) && RouteIds(p, route2)
    ensures g'.stream == g.stream
    ensures child.Some? ==> && |child.value| >= 2 && child.value[0] == 0 && child.value[|child.value| - 1] == 0
                            && RouteIds(p, child.value)
                            && Outcome(Stripped(route1), Stripped(route2), routeType, Some(child.value[1..|child.value| - 1]))
    ensures routeType == 1 ==> child.Some?
    ensures routeType == 0 && Proper(route1, route2) ==> child.Some?
    ensures routeType == 0 && Proper(route1, route2) ==>
              var mid := child.value[1..|child.value| - 1];
              multiset(mid) == multiset(Stripped(route2)) && Distinct(mid)
  {
    var a, b := Stripped(route1), Stripped(route2);
    var crossed;
    crossed, g' := OrderedCrossover(a, b, routeType, g);
    ghost var m := if |a| < |b| then |a| else |b|;
    if m >= 2 {
      ghost var c := CutPair(g.stream(g.pos), g.stream(g.pos + 1), m);
      assert Crossed(a, b, routeType, c.0, c.1) == crossed;
    }
    OutcomeFacts(a, b, routeType, crossed);
    if crossed.None? {
      return None, g';
    }
    var mid := crossed.value;
    assert forall v :: v in a ==> IsStation(p, v);
    assert forall v :: v in b ==> IsStation(p, v);
    Wrapped(p, mid);
    child := Some([0] + mid + [0]);
  }

  /**
   * crossoverOX: truck routes are crossed with type 1 when both have a
   * station between the depot visits and copied from the first parent
   * otherwise; repairman routes are always crossed with type 0; the
   * offspring is then built and evaluated from its routes. None when a
   * repairman crossover would not end.
   */
  method CrossoverOX(p: Params, inst: Instance, penaltyCapacity: real, parent1: Individual, parent2: Individual, g: Rng)
    returns (offspring: Option<Individual>, g': Rng, rpmRoutes: seq<seq<int>>, trkRoutes: seq<seq<int>>)
    requires ValidParams(p) && ValidInstance(inst, p) && InitialStockOk(inst, p)
    requires ChromosomesOk(p, parent1.chromRPM, parent1.chromTRK) && ChromosomesOk(p, parent2.chromRPM, parent2.chromTRK)
    ensures g'.stream == g.stream
    ensures (forall i :: 0 <= i < p.nbRepairmen ==> Proper(parent1.chromRPM[i], parent2.chromRPM[i])) ==> offspring.Some?
    ensures offspring.Some? ==>
      var o := offspring.value;
      && |trkRoutes| == p.nbVehicles && |rpmRoutes| == p.nbRepairmen
      && ChromosomesOk(p, o.chromRPM, o.chromTRK)
      && (forall i :: 0 <= i < p.nbVehicles ==>
            TruckChild(parent1.chromTRK[i], parent2.chromTRK[i], trkRoutes[i]) && RouteFrom(p, trkRoutes[i], o.chromTRK[i]))
      && (forall i :: 0 <= i < p.nbRepairmen ==>
            RepairChild(parent1.chromRPM[i], parent2.chromRPM[i], rpmRoutes[i]) && RouteFrom(p, rpmRoutes[i], o.chromRPM[i]))
      && Evaluated(p, o.eval, penaltyCapacity)
  {
    g' := g;
    trkRoutes := [];
    for i := 0 to p.nbVehicles
      invariant |trkRoutes| == i && g'.stream == g.stream
      invariant forall k :: 0 <= k < i ==>
        TruckChild(parent1.chromTRK[k], parent2.chromTRK[k], trkRoutes[k]) && |trkRoutes[k]| >= 2 && RouteIds(p, trkRoutes[k])
    {
      var route1, route2 := parent1.chromTRK[i], parent2.chromTRK[i];
      var newRoute := route1;
      if |route1| >= 3 && |route2| >= 3 {
        var child;
        child, g' := CrossRoute(p, route1, route2, 1, g');
        newRoute := child.value;
      }
      trkRoutes := trkRoutes + [newRoute];
    }
    rpmRoutes := [];
    for i := 0 to p.nbRepairmen
      invariant |rpmRoutes| == i && g'.stream == g.stream
      invariant forall k :: 0 <= k < i ==>
        RepairChild(parent1.chromRPM[k], parent2.chromRPM[k], rpmRoutes[k]) && |rpmRoutes[k]| >= 2 && RouteIds(p, rpmRoutes[k])
    {
      var route1, route2 := parent1.chromRPM[i], parent2.chromRPM[i];
      var child;
      child, g' := CrossRoute(p, route1, route2, 0, g');
      if child.None? {
        return None, g', rpmRoutes, trkRoutes;
      }
      rpmRoutes := rpmRoutes + [child.value];
    }
    var indiv := IndividualFromRoutes(p, inst, penaltyCapacity, rpmRoutes, trkRoutes);
    offspring := Some(indiv);
  }

  // ---------------------------------------------------------------------
  // terminateCondition and run (Genetic.cpp:6-87)
  // ---------------------------------------------------------------------

  /**
   * terminateCondition: go on while the non-improving streak is at most
   * nbIterNoImp and, when a time limit is set, fewer whole seconds than the
   * limit have elapsed.
   */
  predicate TerminateCondition(p: Params, nbIterNonProd: int, elapsed: nat) {
    nbIterNonProd <= p.nbIterNoImp && (p.timeLimit == 0.0 || (elapsed as real) < p.timeLimit)
  }

  /** The length of the run of non-improving iterations that ends the trace. */
  function TrailingMisses(trace: seq<bool>): nat {
    if trace == [] || trace[|trace| - 1] then 0 else TrailingMisses(trace[..|trace| - 1]) + 1
  }

  /**
   * The streak is c exactly when the last c iterations did not improve and
   * the one before them, if any, did.
   */
  lemma {:induction false} TrailingMissesAre(trace: seq<bool>, c: nat)
    ensures TrailingMisses(trace) == c <==>
              c <= |trace| && (forall i :: |trace| - c <= i < |trace| ==> !trace[i]) && (c < |trace| ==> trace[|trace| - c - 1])
  {
    if trace != [] {
      var front := trace[..|trace| - 1];
      if !trace[|trace| - 1] && c > 0 {
        TrailingMissesAre(front, c - 1);
        assert forall i :: 0 <= i < |front| ==> front[i] == trace[i];
      }
    }
  }

  /**
   * Whether the iteration closing `trace` diversifies: the streak as the
   * program reads it, after the reset of an improving iteration and before
   * the count of a non-improving one, is a positive multiple of 1000.
   */
  predicate DiversifyDue(trace: seq<bool>)
    requires trace != []
  {
    var streak := if trace[|trace| - 1] then 0 else TrailingMisses(trace[..|trace| - 1]);
    streak > 0 && streak % 1000 == 0
  }

  /** Why a run ends. */
  datatype Stop =
    | Finished        // terminateCondition failed
    | OutOfFuel       // the model's iteration bound was reached
    | TournamentHangs // fewer than two members: getBinaryTournament cannot draw two distinct ones
    | CrossoverHangs  // a repairman crossover would not end

  /** Every route key of the archive is a well-formed chromosome pair. */
  ghost predicate RoutesOk(p: Params, s: seq<Individual>) {
    forall k :: k in Keys(s) ==> ChromosomesOk(p, k.0, k.1)
  }

  /** The members of archives with well-formed routes have well-formed routes. */
  lemma MemberRoutes(p: Params, f: seq<Individual>, i: seq<Individual>, k: int)
    requires RoutesOk(p, f) && RoutesOk(p, i) && 0 <= k < |f + i|
    ensures ChromosomesOk(p, (f + i)[k].chromRPM, (f + i)[k].chromTRK)
  {
    if k < |f| {
      assert Keys(f)[k] == Key(f[k]);
    } else {
      assert Keys(i)[k - |f|] == Key(i[k - |f|]);
    }
  }

  /** An archive whose keys all come from well-formed archives or a well-formed solution is well formed. */
  lemma RoutesFrom(p: Params, s: seq<Individual>, a: seq<Individual>, b: seq<Individual>)
    requires RoutesOk(p, a) && RoutesOk(p, b)
    requires forall k :: k in Keys(s) ==> k in Keys(a) || k in Keys(b)
    ensures RoutesOk(p, s)
  {
  }

  /** The same route keys, the same well-formedness. */
  lemma RoutesPerm(p: Params, a: seq<Individual>, b: seq<Individual>)
    requires RoutesOk(p, a) && multiset(Keys(a)) == multiset(Keys(b))
    ensures RoutesOk(p, b)
  {
    forall k | k in Keys(b)
      ensures ChromosomesOk(p, k.0, k.1)
    {
      assert k in multiset(Keys(b));
    }
  }

  /** Every started iteration found terminateCondition true: the streak before iteration k, read at clock(k). */
  ghost predicate Checked(p: Params, clock: nat -> nat, improved: seq<bool>) {
    forall k :: 0 <= k < |improved| ==> TerminateCondition(p, TrailingMisses(improved[..k]), clock(k))
  }

  /** Iteration k diversified exactly when DiversifyDue held for the trace up to it. */
  ghost predicate DiversifyScheduled(improved: seq<bool>, diversified: seq<bool>) {
    |improved| == |diversified| && forall k :: 0 <= k < |improved| ==> (diversified[k] <==> DiversifyDue(improved[..k + 1]))
  }

  /** The streak and the diversification test of the next iteration, read off the trace so far. */
  lemma StreakStep(improved: seq<bool>, isImproved: bool)
    ensures TrailingMisses(improved + [isImproved]) == if isImproved then 0 else TrailingMisses(improved) + 1
    ensures var streak := if isImproved then 0 else TrailingMisses(improved);
            DiversifyDue(improved + [isImproved]) <==> streak > 0 && streak % 1000 == 0
  {
    assert (improved + [isImproved])[..|improved|] == improved;
  }

  /** A started iteration extends the record of loop tests. */
  lemma CheckedStep(p: Params, clock: nat -> nat, improved: seq<bool>, isImproved: bool)
    requires Checked(p, clock, improved) && TerminateCondition(p, TrailingMisses(improved), clock(|improved|))
    ensures Checked(p, clock, improved + [isImproved])
  {
    var trace := improved + [isImproved];
    forall k | 0 <= k < |trace|
      ensures TerminateCondition(p, TrailingMisses(trace[..k]), clock(k))
    {
      if k < |improved| {
        assert trace[..k] == improved[..k];
      } else {
        assert trace[..k] == improved;
      }
    }
  }

  /** An iteration that diversifies exactly when due extends the diversification schedule. */
  lemma ScheduledStep(improved: seq<bool>, diversified: seq<bool>, isImproved: bool, diversify: bool)
    requires DiversifyScheduled(improved, diversified) && (diversify <==> DiversifyDue(improved + [isImproved]))
    ensures DiversifyScheduled(improved + [isImproved], diversified + [diversify])
  {
    var trace := improved + [isImproved];
    var ds := diversified + [diversify];
    forall k | 0 <= k < |trace|
      ensures ds[k] <==> DiversifyDue(trace[..k + 1])
    {
      if k < |improved| {
        assert trace[..k + 1] == improved[..k + 1];
      } else {
        assert trace[..k + 1] == trace;
      }
    }
  }

  /** The first member of an archive sorted by objective is one of its members with the least objective. */
  lemma SortedFirst(s: seq<Individual>)
    requires |s| > 0
    ensures SortBy(s, ObjKey)[0] in s
    ensures forall x :: x in s ==> SortBy(s, ObjKey)[0].eval.objVal <= x.eval.objVal
  {
    var sorted := SortBy(s, ObjKey);
    assert sorted[0] in multiset(sorted);
    forall x | x in s
      ensures sorted[0].eval.objVal <= x.eval.objVal
    {
      assert x in multiset(sorted);
      var j :| 0 <= j < |sorted| && sorted[j] == x;
      assert j == 0 || ObjKey(sorted[0]) <= ObjKey(sorted[j]);
    }
  }

  /** Sorting an archive keeps its routes. */
  lemma SortedRoutes(p: Params, s: seq<Individual>)
    requires AllNonEmpty(s) && RoutesOk(p, s)
    ensures AllNonEmpty(SortBy(s, ObjKey)) && RoutesOk(p, SortBy(s, ObjKey))
  {
    KeysPerm(s, SortBy(s, ObjKey));
    NonEmptyPerm(s, SortBy(s, ObjKey));
    RoutesPerm(p, s, SortBy(s, ObjKey));
  }

  /** Rescoring both archives and sorting the feasible one keeps the routes; its first member then has the least objective. */
  lemma RescoredRoutes(p: Params, f0: seq<Individual>, i0: seq<Individual>)
    requires |f0| > 0 && AllNonEmpty(f0) && RoutesOk(p, f0) && RoutesOk(p, i0)
    ensures var sorted := SortBy(Rescored(f0), ObjKey);
            && |sorted| > 0 && AllNonEmpty(sorted) && RoutesOk(p, sorted) && RoutesOk(p, Rescored(i0))
            && sorted[0] in Rescored(f0)
            && forall x :: x in Rescored(f0) ==> sorted[0].eval.objVal <= x.eval.objVal
  {
    RescoredKeys(f0);
    RescoredKeys(i0);
    RoutesPerm(p, f0, Rescored(f0));
    RoutesPerm(p, i0, Rescored(i0));
    SortedRoutes(p, Rescored(f0));
    SortedFirst(Rescored(f0));
  }

  /** updateAllBiasedFitness on both archives, then the feasible one sorted by objective (Genetic.cpp:21-24). */
  method StartArchives(p: Params, f0: seq<Individual>, i0: seq<Individual>) returns (f: seq<Individual>, i: seq<Individual>, first: Individual)
    requires |f0| > 0 && ArchivesOk(f0, i0) && RoutesOk(p, f0) && RoutesOk(p, i0)
    ensures f == SortBy(Rescored(f0), ObjKey) && i == Rescored(i0)
    ensures |f| > 0 && ArchivesOk(f, i) && RoutesOk(p, f) && RoutesOk(p, i) && first == f[0]
    ensures first in Rescored(f0) && forall x :: x in Rescored(f0) ==> first.eval.objVal <= x.eval.objVal
  {
    RescoredRoutes(p, f0, i0);
    RescoredKeys(i0);
    f := Rescore(f0);
    i := Rescore(i0);
    f := SortBy(f, ObjKey);
    first := f[0];
  }

  /**
   * Both archives and latest-load buffers after addIndividualToSubpopulation
   * offered x: x was added exactly when its side held no member with the
   * same routes, and each side is as Admitted says.
   */
  ghost predicate Admissions(f0: seq<Individual>, i0: seq<Individual>, lf0: seq<Individual>, li0: seq<Individual>,
                             x: Individual, added: bool, population: Population)
    reads population
  {
    && (added <==> Key(x) !in Keys(if x.eval.isFeasible then f0 else i0))
    && Admitted(f0, lf0, x, added, x.eval.isFeasible, population.feasible, population.latestFeasible)
    && Admitted(i0, li0, x, added, !x.eval.isFeasible, population.infeasible, population.latestInfeasible)
  }

  /** Iteration k adjusts the penalty exactly when k is a positive multiple of the period. */
  ghost predicate PenaltyScheduled(p: Params, penalized: seq<bool>)
    requires p.nbIterPenaltyManagement > 0
  {
    forall k :: 0 <= k < |penalized| ==> (penalized[k] <==> k > 0 && k % p.nbIterPenaltyManagement == 0)
  }

  /** An iteration that adjusts the penalty exactly on schedule extends the schedule. */
  lemma PenaltyStep(p: Params, penalized: seq<bool>, penalize: bool)
    requires p.nbIterPenaltyManagement > 0 && PenaltyScheduled(p, penalized)
    requires penalize <==> |penalized| > 0 && |penalized| % p.nbIterPenaltyManagement == 0
    ensures PenaltyScheduled(p, penalized + [penalize])
  {
  }

  /** What one iteration's selection, crossover and education give: an offspring, or the reason the program would hang. */
  datatype Bred = Offspring(offspring: Individual) | Hang(reason: Stop)

  class Genetic {
    const p: Params
    const inst: Instance
    const population: Population

    /** The parameters and the instance are sound. */
    ghost predicate Sound()
      reads this
    {
      ValidParams(p) && ValidInstance(inst, p) && InitialStockOk(inst, p)
    }

    /** The population is well formed and every archived solution has well-formed routes. */
    ghost predicate Valid()
      reads this, population
    {
      population.Valid() && RoutesOk(p, population.feasible) && RoutesOk(p, population.infeasible)
    }

    constructor (p0: Params, inst0: Instance, population0: Population)
      ensures p == p0 && inst == inst0 && population == population0
    {
      p, inst, population := p0, inst0, population0;
    }

    /**
     * The periodic steps of one iteration (Genetic.cpp:58-71): diversify when
     * the streak is a positive multiple of 1000, then adjust the penalty when
     * the iteration number is a positive multiple of nbIterPenaltyManagement.
     */
    method Manage(nbIter: nat, nbIterNonProd: nat, newcomers: seq<Individual>) returns (diversify: bool, penalize: bool)
      modifies population
      requires Valid() && p.nbIterPenaltyManagement > 0 && p.mu >= 0
      requires AllNonEmpty(newcomers) && RoutesOk(p, newcomers)
      ensures Valid()
      ensures diversify <==> nbIterNonProd % 1000 == 0 && nbIterNonProd > 0
      ensures penalize <==> nbIter % p.nbIterPenaltyManagement == 0 && nbIter > 0
    {
      diversify := nbIterNonProd % 1000 == 0 && nbIterNonProd > 0;
      if diversify {
        Diversify(newcomers);
      }
      penalize := nbIter % p.nbIterPenaltyManagement == 0 && nbIter > 0;
      if penalize {
        Penalize();
      }
    }

    /**
     * run, from a population whose feasible archive is not empty: the feasible
     * archive is rescored and sorted by objective, its first member is the
     * incumbent; each iteration educates the crossover of two tournament
     * winners, which becomes the incumbent when feasible and strictly better;
     * an infeasible offspring is, on a fair coin, educated again and
     * archived; a non-improving streak that is a positive multiple of 1000
     * diversifies from the next batch of newcomers; every
     * nbIterPenaltyManagement iterations the penalty is adjusted and the
     * latest-load buffers cleared. `clock(k)` is the whole seconds elapsed
     * when the loop condition is read for the k-th time, `batches(k)` the
     * newcomers of a diversification in iteration k; `maxIter` bounds the
     * model's iterations. `improved` records which iterations improved,
     * `diversified` which ones diversified and `penalized` which ones
     * adjusted the penalty.
     */
    method Run(maxIter: nat, clock: nat -> nat, batches: nat -> seq<Individual>, g: Rng)
      returns (best: Individual, nbIter: nat, nbIterNonProd: nat, stop: Stop, g': Rng,
               ghost first: Individual, ghost improved: seq<bool>, ghost diversified: seq<bool>,
               ghost penalized: seq<bool>)
      modifies population
      requires Sound() && Valid() && p.nbIterPenaltyManagement > 0 && p.mu >= 0 && |population.feasible| > 0
      requires forall k :: AllNonEmpty(batches(k)) && RoutesOk(p, batches(k))
      ensures Valid() && g'.stream == g.stream
      ensures first in Rescored(old(population.feasible))
      ensures forall x :: x in Rescored(old(population.feasible)) ==> first.eval.objVal <= x.eval.objVal
      ensures best.eval.objVal <= first.eval.objVal
      ensures (true in improved) <==> best.eval.objVal < first.eval.objVal
      ensures true !in improved ==> best == first
      ensures true in improved ==> best.eval.isFeasible
      ensures |improved| == |diversified| == |penalized| == nbIter <= maxIter
      ensures nbIterNonProd == TrailingMisses(improved)
      ensures forall k :: 0 <= k < nbIter ==> TerminateCondition(p, TrailingMisses(improved[..k]), clock(k))
      ensures forall k :: 0 <= k < nbIter ==> (diversified[k] <==> DiversifyDue(improved[..k + 1]))
      ensures forall k :: 0 <= k < nbIter ==> (penalized[k] <==> k > 0 && k % p.nbIterPenaltyManagement == 0)
      ensures stop == Finished <==> !TerminateCondition(p, nbIterNonProd, clock(nbIter))
      ensures stop == OutOfFuel ==> nbIter == maxIter
    {
      best := Start();
      first := best;
      nbIter, nbIterNonProd := 0, 0;
      g' := g;
      improved, diversified, penalized := [], [], [];
      while TerminateCondition(p, nbIterNonProd, clock(nbIter))
        invariant Valid() && g'.stream == g.stream
        invariant best.eval.objVal <= first.eval.objVal
        invariant (true in improved) <==> best.eval.objVal < first.eval.objVal
        invariant true !in improved ==> best == first
        invariant true in improved ==> best.eval.isFeasible
        invariant |improved| == |penalized| == nbIter <= maxIter
        invariant nbIterNonProd == TrailingMisses(improved)
        invariant Checked(p, clock, improved) && DiversifyScheduled(improved, diversified)
        invariant PenaltyScheduled(p, penalized)
        decreases maxIter - nbIter
      {
        if nbIter == maxIter {
          return best, nbIter, nbIterNonProd, OutOfFuel, g', first, improved, diversified, penalized;
        }
        var bred;
        ghost var archived, repaired, added;
        bred, g', archived, repaired, added := Breed(g');
        if bred.Hang? {
          return best, nbIter, nbIterNonProd, bred.reason, g', first, improved, diversified, penalized;
        }
        var offspring := bred.offspring;
        var isImproved := false;
        if offspring.eval.isFeasible && offspring.eval.objVal < best.eval.objVal {
          best := offspring;
          isImproved := true;
        }
        if isImproved {
          nbIterNonProd := 0;
        }
        var diversify, penalize := Manage(nbIter, nbIterNonProd, batches(nbIter));
        if !isImproved {
          nbIterNonProd := nbIterNonProd + 1;
        }
        StreakStep(improved, isImproved);
        CheckedStep(p, clock, improved, isImproved);
        ScheduledStep(improved, diversified, isImproved, diversify);
        PenaltyStep(p, penalized, penalize);
        improved, diversified, penalized := improved + [isImproved], diversified + [diversify], penalized + [penalize];
        nbIter := nbIter + 1;
      }
      stop := Finished;
    }

    /**
     * The start of run (Genetic.cpp:21-28): the archives are rescored, the
     * feasible one is sorted by objective and its first member returned.
     */
    method Start() returns (first: Individual)
      modifies population
      requires Valid() && |population.feasible| > 0
      ensures Valid() && |population.feasible| > 0
      ensures first in Rescored(old(population.feasible))
      ensures forall x :: x in Rescored(old(population.feasible)) ==> first.eval.objVal <= x.eval.objVal
    {
      var f, i;
      f, i, first := StartArchives(p, population.feasible, population.infeasible);
      population.feasible, population.infeasible := f, i;
    }

    /**
     * One iteration's selection, crossover and education (Genetic.cpp:34-54):
     * two binary tournaments, the crossover of their winners, local search;
     * an infeasible result is, on a fair coin, searched again and archived.
     * The offspring returned is the one searched once, which the incumbent
     * test reads.
     */
    method Breed(g: Rng) returns (bred: Bred, g': Rng, ghost archived: bool, ghost repaired: Individual, ghost added: bool)
      modifies population
      requires Sound() && Valid()
      ensures Valid() && g'.stream == g.stream
      ensures bred.Hang? ==> bred.reason == TournamentHangs || bred.reason == CrossoverHangs
      ensures bred.Hang? && bred.reason == TournamentHangs <==> |old(population.feasible)| + |old(population.infeasible)| < 2
      ensures bred.Offspring? ==> ChromosomesOk(p, bred.offspring.chromRPM, bred.offspring.chromTRK)
      ensures archived ==> bred.Offspring? && !bred.offspring.eval.isFeasible
      ensures archived ==> Admissions(old(population.feasible), old(population.infeasible), old(population.latestFeasible),
                                      old(population.latestInfeasible), repaired, added, population)
      ensures !archived ==> unchanged(population)
      ensures population.penaltyCoefficient == old(population.penaltyCoefficient)
      ensures population.penaltyCapacity == old(population.penaltyCapacity)
    {
      archived, repaired, added := false, *, false;
      if |population.feasible| + |population.infeasible| < 2 {
        return Hang(TournamentHangs), g, archived, repaired, added;
      }
      var parentA, parentB;
      ghost var a1, a2, b1, b2;
      parentA, g', a1, a2 := population.GetBinaryTournament(g);
      parentB, g', b1, b2 := population.GetBinaryTournament(g');
      MemberRoutes(p, population.feasible, population.infeasible, a1);
      MemberRoutes(p, population.feasible, population.infeasible, a2);
      MemberRoutes(p, population.feasible, population.infeasible, b1);
      MemberRoutes(p, population.feasible, population.infeasible, b2);
      var crossed, rpmRoutes, trkRoutes;
      crossed, g', rpmRoutes, trkRoutes := CrossoverOX(p, inst, population.penaltyCapacity, parentA, parentB, g');
      if crossed.None? {
        return Hang(CrossoverHangs), g', archived, repaired, added;
      }
      var offspring;
      offspring, g' := Educate(p, inst, population.penaltyCapacity, crossed.value, g');
      bred := Offspring(offspring);
      if !offspring.eval.isFeasible {
        var raw;
        raw, g' := Draw(g');
        if GetRand(raw, 2) == 0 {
          var searched, joined;
          searched, g' := Educate(p, inst, population.penaltyCapacity, offspring, g');
          joined := Admission(searched);
          archived, repaired, added := true, searched, joined;
        }
      }
    }

    /**
     * addIndividualToSubpopulation for an educated offspring: the archives
     * stay well formed, and the offspring joins its side exactly when no
     * member there has the same routes.
     */
    method Admission(offspring: Individual) returns (added: bool)
      modifies population
      requires Valid() && ChromosomesOk(p, offspring.chromRPM, offspring.chromTRK)
      ensures Valid()
      ensures Admissions(old(population.feasible), old(population.infeasible), old(population.latestFeasible),
                         old(population.latestInfeasible), offspring, added, population)
      ensures population.penaltyCoefficient == old(population.penaltyCoefficient)
      ensures population.penaltyCapacity == old(population.penaltyCapacity)
    {
      ChromosomesNonEmpty(p, offspring);
      ghost var f0, i0 := population.feasible, population.infeasible;
      added := population.AddIndividualToSubpopulation(offspring);
      assert RoutesOk(p, [offspring]) by {
        assert Keys([offspring]) == [Key(offspring)];
      }
      AdmittedKeys(f0, old(population.latestFeasible), offspring, added, offspring.eval.isFeasible,
                   population.feasible, population.latestFeasible);
      AdmittedKeys(i0, old(population.latestInfeasible), offspring, added, !offspring.eval.isFeasible,
                   population.infeasible, population.latestInfeasible);
      RoutesFrom(p, population.feasible, f0, [offspring]);
      RoutesFrom(p, population.infeasible, i0, [offspring]);
    }

    /** diversification followed by updateAllBiasedFitness (Genetic.cpp:61-64). */
    method Diversify(newcomers: seq<Individual>)
      modifies population
      requires Valid() && p.mu >= 0 && AllNonEmpty(newcomers) && RoutesOk(p, newcomers)
      ensures Valid()
    {
      ghost var f0, i0 := population.feasible, population.infeasible;
      ghost var used := population.Diversification(p.mu, newcomers);
      DiversifiedKeys(f0, i0, p.mu, newcomers, used, population.feasible, population.infeasible);
      RoutesFrom(p, population.feasible, f0, newcomers);
      RoutesFrom(p, population.infeasible, i0, newcomers);
      ghost var f1, i1 := population.feasible, population.infeasible;
      population.UpdateAllBiasedFitness();
      RescoredKeys(f1);
      RescoredKeys(i1);
      RoutesPerm(p, f1, population.feasible);
      RoutesPerm(p, i1, population.infeasible);
    }

    /**
     * adjustmentBasedOnProportion, then both latest-load buffers cleared
     * (Genetic.cpp:67-71): the penalty is scaled by the multiplier the
     * buffers' proportion of feasible solutions calls for, and when it
     * changes both archives are reevaluated with the new penalty.
     */
    method Penalize()
      modifies population
      requires Valid()
      ensures Valid()
      ensures population.latestFeasible == [] && population.latestInfeasible == []
      ensures var m := Multiplier(|old(population.latestFeasible)|, |old(population.latestInfeasible)|, p.targetFeasible);
              && population.penaltyCapacity == old(population.penaltyCapacity) * m
              && (m == 1.0 ==> && population.feasible == old(population.feasible)
                               && population.infeasible == old(population.infeasible)
                               && population.penaltyCoefficient == old(population.penaltyCoefficient))
              && (m != 1.0 ==> && population.feasible == Reevaluated(old(population.feasible), population.penaltyCapacity)
                               && population.infeasible == Reevaluated(old(population.infeasible), population.penaltyCapacity)
                               && population.penaltyCoefficient == population.penaltyCapacity)
    {
      ghost var f0, i0 := population.feasible, population.infeasible;
      var multiplier := population.AdjustmentBasedOnProportion(p.targetFeasible);
      if multiplier != 1.0 {
        ReevaluatedFacts(p, f0, 0.0, population.penaltyCapacity);
        ReevaluatedFacts(p, i0, 0.0, population.penaltyCapacity);
      }
      RoutesPerm(p, f0, population.feasible);
      RoutesPerm(p, i0, population.infeasible);
      population.latestFeasible := [];
      population.latestInfeasible := [];
    }
  }
}
