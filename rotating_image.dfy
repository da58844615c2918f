/**
 * The rotating image of the image lists (`RotatingImage`, declared the same way
 * in iOSPerfBenchmark/ContentView.swift and iOSPerfBenchmark/ImageListBenchmark.swift).
 *
 * Each timer tick turns the image 3 degrees; on reaching 360 it snaps back to 0.
 * The angle is a Double in the source, but starting from 0 it only ever holds
 * multiples of 3 below 360, which are exact, so it is an integer here.
 */
module RotatingImages {

  import Arithmetic

  /** Degrees turned per tick (360 degrees over 120 ticks). */
  const Step: int := 3
  const FullTurn: int := 360
  /** Ticks in one full turn. */
  const TicksPerTurn: nat := 120

  /** The angles the image can show: multiples of `Step` in [0, 360). */
  predicate ValidAngle(r: int) {
    0 <= r < FullTurn && r % Step == 0
  }

  /** One tick: add 3 degrees, and reset to 0 once the angle reaches 360. */
  function Advance(r: int): (a: int)
    ensures ValidAngle(r) ==> ValidAngle(a)
    // within a turn every tick adds exactly 3 degrees
    ensures ValidAngle(r) && r < FullTurn - Step ==> a == r + Step
    // the last angle of a turn, 357, goes back to 0
    ensures r == FullTurn - Step ==> a == 0
  {
    var next := r + Step;
    if next >= FullTurn then 0 else next
  }

  /** The angle after `k` ticks from `r`. */
  function AdvanceBy(r: int, k: nat): (a: int)
    ensures ValidAngle(r) ==> ValidAngle(a)
    decreases k
  {
    if k == 0 then r else Advance(AdvanceBy(r, k - 1))
  }

  /** From 0, the angle after `k` ticks is 3k reduced modulo 360. */
  lemma {:induction false} AngleAfterTicks(k: nat)
    ensures AdvanceBy(0, k) == (Step * k) % FullTurn
    decreases k
  {
    if k > 0 {
      AngleAfterTicks(k - 1);
      var prev := (Step * (k - 1)) % FullTurn;
      assert Step * k == Step * (k - 1) + Step;
      if prev + Step >= FullTurn {
        assert prev == FullTurn - Step;
        assert (Step * k) % FullTurn == 0;
      } else {
        assert (Step * k) % FullTurn == prev + Step;
      }
    }
  }

  /** Within the first turn the image is never back at 0. */
  lemma NotBackBeforeFullTurn(k: nat)
    requires 0 < k < TicksPerTurn
    ensures AdvanceBy(0, k) != 0
  {
    AngleAfterTicks(k);
    assert 0 < Step * k < FullTurn;
  }

  /** The image is back at 0 after exactly 120 ticks, and not before. */
  lemma FullTurnTakes120Ticks()
    ensures AdvanceBy(0, TicksPerTurn) == 0
    ensures forall k :: 0 < k < TicksPerTurn ==> AdvanceBy(0, k) != 0
  {
    assert (Step * TicksPerTurn) % FullTurn == 0;
    AngleAfterTicks(TicksPerTurn);
    forall k | 0 < k < TicksPerTurn
      ensures AdvanceBy(0, k) != 0
    {
      NotBackBeforeFullTurn(k);
    }
  }

  /** The rotation cycles: 120 more ticks from any reachable angle give the same angle. */
  lemma {:induction false} Periodic(k: nat)
    ensures AdvanceBy(0, k + TicksPerTurn) == AdvanceBy(0, k)
  {
    AngleAfterTicks(k);
    AngleAfterTicks(k + TicksPerTurn);
    assert Step * (k + TicksPerTurn) == Step * k + FullTurn;
    Arithmetic.ModShift(Step * k + FullTurn, FullTurn);
  }

  class RotatingImage {
    const imageName: string
    var rotation: int

    ghost predicate Valid()
      reads this
    {
      ValidAngle(rotation)
    }

    constructor (name: string)
      ensures Valid() && imageName == name && rotation == 0
    {
      imageName := name;
      rotation := 0;
    }

    /** The handler of the image's 1/120-second timer. */
    method OnTimer()
      requires Valid()
      modifies this`rotation
      ensures Valid()
      ensures rotation == Advance(old(rotation))
    {
      rotation := rotation + Step;
      if rotation >= FullTurn {
        rotation := 0;
      }
    }
  }
}
