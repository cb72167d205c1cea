/** Monster state rules of Monster.py: kind codes, damage with the damage-timer
    counter, relocation, and the counter and direction steps of one movement tick. */
module Monsters {
  import opened Options

  /** The kinds of Monster.py's MonsterType enumeration. */
  datatype MonsterType = Invalid | Skeleton | Orc | Bat | Slime

  /** The kind a monster gets from its level-file code, or `None` for an
      unknown code. For such a code the source's fallback branch compares
      instead of assigning, reading the kind before anything has set it, so
      building the monster fails; `Invalid` is never produced. */
  function KindOfCode(code: string): (k: Option<MonsterType>)
    ensures k == Some(Skeleton) <==> code == "SK"
    ensures k == Some(Orc) <==> code == "OR"
    ensures k == Some(Bat) <==> code == "BA"
    ensures k == Some(Slime) <==> code == "SL"
    ensures k == None <==> code !in {"SK", "OR", "BA", "SL"}
    ensures k != Some(Invalid)
  {
    if code == "SK" then Some(Skeleton)
    else if code == "OR" then Some(Orc)
    else if code == "BA" then Some(Bat)
    else if code == "SL" then Some(Slime)
    else None
  }

  function Abs(n: int): nat { if n < 0 then -n else n }

  /** A displacement on the grid. */
  datatype Step = Step(dx: int, dy: int)

  /** The unit steps selected by the draws 0 (stay), 1, 2, 3 and 4. */
  const Steps: seq<Step> := [Step(0, 0), Step(0, 1), Step(0, -1), Step(-1, 0), Step(1, 0)]

  /** The displacement a tick proposes for a draw of `direction`. */
  function StepDelta(direction: int): (d: Step)
    ensures 0 <= direction < |Steps| ==> d == Steps[direction]
    ensures !(0 <= direction < |Steps|) ==> d == Step(0, 0)
    ensures Abs(d.dx) + Abs(d.dy) == (if 1 <= direction <= 4 then 1 else 0)
  {
    if direction == 1 then Step(0, 1)
    else if direction == 2 then Step(0, -1)
    else if direction == 3 then Step(-1, 0)
    else if direction == 4 then Step(1, 0)
    else Step(0, 0)
  }

  /** The damage-timer counter after the decrement at the top of a tick. */
  function TickedCounter(c: int): (r: int)
    ensures c > 0 ==> r == c - 1
    ensures c <= 0 ==> r == c
    ensures c >= 0 ==> 0 <= r <= c
  {
    if c > 0 then c - 1 else c
  }

  class Monster {
    var x: int
    var y: int
    var hp: int
    var damage: int
    /** The damage timer: +3 per hit, -1 per tick while positive. */
    var counter: int
    /** The delay between ticks, in milliseconds (the sleeping itself is not modelled). */
    const sleepMs: int
    const kind: MonsterType

    /** Only a known code builds a monster; the source fails on any other. */
    constructor (code: string, x: int, y: int, hp: int, damage: int, sleepMs: int)
      requires KindOfCode(code).Some?
      ensures this.x == x && this.y == y && this.hp == hp && this.damage == damage
      ensures this.sleepMs == sleepMs && KindOfCode(code) == Some(kind) && counter == 0
    {
      this.x, this.y, this.hp, this.damage := x, y, hp, damage;
      this.sleepMs := sleepMs;
      counter := 0;
      kind := KindOfCode(code).value;
    }

    /** Hit points drop by exactly `points`, unclamped; the counter rises by 3. */
    method IncurDamage(points: int)
      modifies this`hp, this`counter
      ensures hp == old(hp) - points && counter == old(counter) + 3
      ensures x == old(x) && y == old(y) && damage == old(damage)
    {
      counter := counter + 3;
      hp := hp - points;
    }

    method SetLocation(x: int, y: int)
      modifies this`x, this`y
      ensures this.x == x && this.y == y
      ensures hp == old(hp) && damage == old(damage) && counter == old(counter)
    {
      this.x, this.y := x, y;
    }
  }
}
