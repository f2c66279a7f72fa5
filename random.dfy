/*
 * The program's random engine (params.ran) as an explicit argument: an
 * infinite stream of raw draws and the position of the next one. A draw
 * reduced into a range models getRand / uniform_int_distribution; a
 * "redraw until acceptable" loop is modelled by one draw over the acceptable
 * values, which is what such a loop samples from.
 */
module Random {

  /** The stream of raw draws and the position of the next unread draw. */
  datatype Rng = Rng(stream: nat -> nat, pos: nat)

  /** Reads one raw draw. */
  function Next(g: Rng): (res: (nat, Rng))
    ensures res.0 == g.stream(g.pos) && res.1 == Rng(g.stream, g.pos + 1)
  {
    (g.stream(g.pos), Rng(g.stream, g.pos + 1))
  }

  /** getRand(maxNum): a value in [0, maxNum). */
  function GetRand(raw: nat, maxNum: nat): (k: nat)
    requires maxNum > 0
    ensures k < maxNum
  {
    raw % maxNum
  }

  /** A raw draw already inside the range is taken as it is. */
  lemma GetRandBelow(raw: nat, maxNum: nat)
    requires raw < maxNum
    ensures GetRand(raw, maxNum) == raw
  {
  }

  /** A value in [1, m] other than `avoid`: the outcome of redrawing from [1, m] until the value differs from `avoid`. */
  function PickOther(raw: nat, m: nat, avoid: int): (k: int)
    requires m >= 2 && 1 <= avoid <= m
    ensures 1 <= k <= m && k != avoid
  {
    var t := GetRand(raw, m - 1) + 1;
    if t >= avoid then t + 1 else t
  }

  /** Every value PickOther may return is reached by some draw. */
  lemma PickOtherCovers(m: nat, avoid: int, k: int)
    requires m >= 2 && 1 <= avoid <= m
    requires 1 <= k <= m && k != avoid
    ensures exists raw: nat :: PickOther(raw, m, avoid) == k
  {
    var raw: nat := if k > avoid then k - 2 else k - 1;
    GetRandBelow(raw, m - 1);
    assert PickOther(raw, m, avoid) == k;
  }
}
