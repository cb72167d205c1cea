/** Avatar state rules of Avatar.py: position, unclamped damage and the torch
    radius with its 0.5 step and its 2.0 floor. */
module Avatars {
  const TorchDelta: real := 0.5
  const TorchFloor: real := 2.0

  function Max(a: real, b: real): real { if a < b then b else a }

  /** The torch radius after one decrease. */
  function DecreasedTorch(t: real): (r: real)
    ensures r >= TorchFloor
    ensures t >= TorchFloor + TorchDelta ==> r == t - TorchDelta
    ensures t < TorchFloor + TorchDelta ==> r == TorchFloor
  {
    if t - TorchDelta < TorchFloor then TorchFloor else t - TorchDelta
  }

  /** The torch radius after `n` decreases in a row. */
  function DecreasedTimes(t: real, n: nat): real
  {
    if n == 0 then t else DecreasedTorch(DecreasedTimes(t, n - 1))
  }

  /** After n > 0 decreases the radius is t - n/2, or the floor, whichever is larger. */
  lemma {:induction false} DecreasedTimesClosedForm(t: real, n: nat)
    requires n > 0
    ensures DecreasedTimes(t, n) == Max(TorchFloor, t - n as real * TorchDelta)
  {
    if n > 1 {
      DecreasedTimesClosedForm(t, n - 1);
    }
  }

  /** Repeated decreases never take the radius below the floor, and enough of them reach it exactly. */
  lemma DecreasesReachFloor(t: real, n: nat)
    requires n > 0
    ensures DecreasedTimes(t, n) >= TorchFloor
    ensures n as real * TorchDelta >= t - TorchFloor ==> DecreasedTimes(t, n) == TorchFloor
  {
    DecreasedTimesClosedForm(t, n);
  }

  class Avatar {
    var x: int
    var y: int
    var hp: int
    var damage: int
    var torch: real

    constructor (x: int, y: int, hp: int, damage: int, torch: real)
      ensures this.x == x && this.y == y && this.hp == hp && this.damage == damage && this.torch == torch
    {
      this.x, this.y, this.hp, this.damage, this.torch := x, y, hp, damage, torch;
    }

    method SetLocation(x: int, y: int)
      modifies this`x, this`y
      ensures this.x == x && this.y == y
      ensures hp == old(hp) && damage == old(damage) && torch == old(torch)
    {
      this.x, this.y := x, y;
    }

    /** Hit points drop by exactly `d`, unclamped, so they may reach 0 or less. */
    method IncurDamage(d: int)
      modifies this`hp
      ensures hp == old(hp) - d
      ensures x == old(x) && y == old(y) && damage == old(damage) && torch == old(torch)
    {
      hp := hp - d;
    }

    method IncreaseTorch()
      modifies this`torch
      ensures torch == old(torch) + TorchDelta
      ensures x == old(x) && y == old(y) && hp == old(hp) && damage == old(damage)
    {
      torch := torch + TorchDelta;
    }

    /** A radius loaded below the floor is raised to it by the first decrease. */
    method DecreaseTorch()
      modifies this`torch
      ensures torch == DecreasedTorch(old(torch)) && torch >= TorchFloor
      ensures x == old(x) && y == old(y) && hp == old(hp) && damage == old(damage)
    {
      torch := torch - TorchDelta;
      if torch < TorchFloor {
        torch := TorchFloor;
      }
    }
  }
}
