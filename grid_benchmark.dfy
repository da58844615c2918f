/**
 * The animated grid benchmark (iOSPerfBenchmark/GridViewBenchmark.swift).
 *
 * A timer advances `time` by one modulo 10 000. Each of the 4 000 cells shows
 * a value drawn from a generator seeded with `index + time`, in [1, 10 000).
 * The generator (C `srand48`/`drand48` behind a Swift random-number
 * generator) is a parameter `draw` from seed to value, of which only its
 * range is known.
 */
module GridBenchmark {

  import Arithmetic

  const ItemCount: nat := 4000
  /** `time` wraps at this modulus. */
  const TimeModulus: int := 10000
  /** Cell values lie in [ValueLow, ValueHigh). */
  const ValueLow: int := 1
  const ValueHigh: int := 10000

  /** Swift's `%` on `Int`: the remainder has the sign of the dividend. */
  function Rem(a: int, m: int): (r: int)
    requires m > 0
    ensures a >= 0 ==> 0 <= r < m
    ensures a < 0 ==> -m < r <= 0
    ensures (a - r) % m == 0
  {
    if a >= 0 then
      var q := a / m;
      assert a - a % m == q * m;
      Arithmetic.ModMultiple(q, m);
      a % m
    else
      var q := (-a) / m;
      assert a + (-a) % m == (-q) * m;
      Arithmetic.ModMultiple(-q, m);
      -((-a) % m)
  }

  /** The timer handler's new `time`: `(time + 1) % 10_000`. */
  function NextTime(t: int): (u: int)
    ensures 0 <= t < TimeModulus ==> 0 <= u < TimeModulus
    ensures 0 <= t < TimeModulus - 1 ==> u == t + 1
    ensures t == TimeModulus - 1 ==> u == 0
  {
    Rem(t + 1, TimeModulus)
  }

  /** `time` after `k` timer ticks from `t`. */
  function TimeAfter(t: int, k: nat): int
    decreases k
  {
    if k == 0 then t else NextTime(TimeAfter(t, k - 1))
  }

  /** From a valid `time`, `k` ticks add `k` modulo 10 000. */
  lemma {:induction false} TimeAfterTicks(t: int, k: nat)
    requires 0 <= t < TimeModulus
    ensures TimeAfter(t, k) == (t + k) % TimeModulus
    decreases k
  {
    if k > 0 {
      TimeAfterTicks(t, k - 1);
      var prev := (t + k - 1) % TimeModulus;
      var q := (t + k - 1) / TimeModulus;
      assert t + k == q * TimeModulus + prev + 1;
      if prev < TimeModulus - 1 {
        Arithmetic.ModUnique(t + k, TimeModulus, q, prev + 1);
      } else {
        assert (q + 1) * TimeModulus == q * TimeModulus + TimeModulus;
        Arithmetic.ModUnique(t + k, TimeModulus, q + 1, 0);
      }
    }
  }

  /** Ten thousand ticks bring `time` back to where it was. */
  lemma TimeIsPeriodic(t: int)
    requires 0 <= t < TimeModulus
    ensures TimeAfter(t, TimeModulus as nat) == t
  {
    var period: nat := TimeModulus;
    Arithmetic.ModUnique(t + period, period, 1, t);
    assert (t + period) % period == t;
    TimeAfterTicks(t, period);
  }

  /** The generator seed of cell `index` at `time`. */
  function Seed(index: int, time: int): (seed: int)
    // at one time, the seed gives back the cell: no two cells share a seed
    ensures seed - time == index
  {
    index + time
  }

  /** What the generator promises: every seed gives a value in [1, 10 000). */
  ghost predicate DrawsInRange(draw: int -> int) {
    forall seed :: ValueLow <= draw(seed) < ValueHigh
  }

  /** The value cell `index` shows at `time`. */
  function CellValue(draw: int -> int, index: int, time: int): (v: int)
    requires DrawsInRange(draw)
    ensures ValueLow <= v < ValueHigh
  {
    draw(Seed(index, time))
  }

  /** The values of all cells at `time`, by index. */
  function CellValues(draw: int -> int, time: int): (vs: seq<int>)
    requires DrawsInRange(draw)
    ensures |vs| == ItemCount
    ensures forall i :: 0 <= i < ItemCount ==> ValueLow <= vs[i] < ValueHigh
  {
    seq(ItemCount, i => CellValue(draw, i, time))
  }

  /** A cell's value depends only on `index + time`. */
  lemma SameSeedSameValue(draw: int -> int, i: int, t: int, j: int, u: int)
    requires DrawsInRange(draw) && i + t == j + u
    ensures CellValue(draw, i, t) == CellValue(draw, j, u)
  {
  }

  /**
   * Between wraps, a tick moves every value one cell towards the start of the
   * grid: cell `i` now shows what cell `i + 1` showed before.
   */
  lemma TickShiftsValues(draw: int -> int, time: int)
    requires DrawsInRange(draw) && 0 <= time < TimeModulus - 1
    ensures forall i :: 0 <= i < ItemCount - 1 ==>
              CellValues(draw, NextTime(time))[i] == CellValues(draw, time)[i + 1]
  {
    var before, after := CellValues(draw, time), CellValues(draw, NextTime(time));
    forall i | 0 <= i < ItemCount - 1
      ensures after[i] == before[i + 1]
    {
      SameSeedSameValue(draw, i, time + 1, i + 1, time);
    }
  }

  /** The grid view's animation state. */
  class GridView {
    var time: int

    ghost predicate Valid()
      reads this
    {
      0 <= time < TimeModulus
    }

    constructor ()
      ensures Valid() && time == 0
    {
      time := 0;
    }

    /** The handler of the 8 ms timer. */
    method OnTimer()
      requires Valid()
      modifies this
      ensures Valid()
      ensures time == NextTime(old(time))
    {
      time := Rem(time + 1, TimeModulus);
    }

    /** The values the grid shows now. */
    function Values(draw: int -> int): (vs: seq<int>)
      requires DrawsInRange(draw)
      reads this
      ensures |vs| == ItemCount
      ensures forall i :: 0 <= i < ItemCount ==> ValueLow <= vs[i] < ValueHigh
    {
      CellValues(draw, time)
    }
  }
}
