/** Terrain classification of Tile.py and the two mutable slots of a tile. */
module Tiles {
  import Monsters

  /** The terrain types of Tile.py's TileType enumeration. */
  datatype TileType = Invalid | Floor | Lava | Water | Forest | Grass | Mountain | Wall {
    /** Light does not pass through forest, mountains or walls. */
    function IsOpaque(): (b: bool)
      ensures b <==> this in {Forest, Mountain, Wall}
    {
      !(this == Floor || this == Lava || this == Water || this == Grass || this == Invalid)
    }

    /** Everything except water, mountains and walls can be walked on. */
    function IsPassable(): (b: bool)
      ensures b <==> this in {Invalid, Floor, Lava, Forest, Grass}
    {
      !(this == Water || this == Mountain || this == Wall)
    }

    /** The hit points lost on entering a tile of this type. */
    function Damage(): (d: int)
      ensures 0 <= d <= 1
      ensures d == 1 <==> this == Lava
    {
      if this == Lava then 1 else 0
    }
  }

  /** The terrain type of a one-letter level-file code; any other code is Invalid. */
  function TileTypeOf(code: string): (t: TileType)
    ensures t == Floor <==> code == "B"
    ensures t == Lava <==> code == "L"
    ensures t == Water <==> code == "W"
    ensures t == Forest <==> code == "F"
    ensures t == Grass <==> code == "G"
    ensures t == Mountain <==> code == "M"
    ensures t == Wall <==> code == "S"
    ensures t == Invalid <==> code !in {"B", "L", "W", "F", "G", "M", "S"}
  {
    if code == "B" then Floor
    else if code == "L" then Lava
    else if code == "W" then Water
    else if code == "F" then Forest
    else if code == "G" then Grass
    else if code == "M" then Mountain
    else if code == "S" then Wall
    else Invalid
  }

  /** Forest is the one terrain that can be walked through but not seen through. */
  lemma OnlyForestIsOpaqueAndPassable(t: TileType)
    ensures t.IsOpaque() && t.IsPassable() <==> t == Forest
  {
  }

  class Tile {
    const kind: TileType
    var lit: bool
    /** The monster standing here, if any; the avatar is never recorded. */
    var occupied: Monsters.Monster?

    constructor (code: string)
      ensures kind == TileTypeOf(code) && !lit && occupied == null
    {
      kind := TileTypeOf(code);
      lit := false;
      occupied := null;
    }

    method SetOccupied(m: Monsters.Monster?)
      modifies this`occupied
      ensures occupied == m && lit == old(lit)
    {
      occupied := m;
    }

    method SetLit(value: bool)
      modifies this`lit
      ensures lit == value && occupied == old(occupied)
    {
      lit := value;
    }
  }
}
