/** The World of World.py: the tile grid, the avatar and the monster list,
    with loading, movement and combat resolution, lighting and reaping. */
module Worlds {
  import opened Options
  import opened Lighting
  import Sweeping
  import Tiles
  import Monsters
  import Avatars

  /** The six already-parsed level-file values that describe one monster. */
  datatype MonsterRecord = MonsterRecord(code: string, x: int, y: int, hp: int, damage: int, sleepMs: int)

  /** Every record names a known monster code; building a monster from any
      other code fails in the source, and loading aborts with it. */
  predicate KnownCodes(rs: seq<MonsterRecord>)
  {
    forall k :: 0 <= k < |rs| ==> Monsters.KindOfCode(rs[k].code).Some?
  }

  predicate DistinctPositions(rs: seq<MonsterRecord>)
  {
    forall k, l :: 0 <= k < l < |rs| ==> (rs[k].x, rs[k].y) != (rs[l].x, rs[l].y)
  }

  /** Among the first n records, record k is the last one that starts on
      its cell: no later one of them shares it. */
  predicate LastOnCell(rs: seq<MonsterRecord>, k: nat, n: nat)
    requires k < n <= |rs|
  {
    forall l :: k < l < n ==> (rs[l].x, rs[l].y) != (rs[k].x, rs[k].y)
  }

  /** With distinct starting cells every record is the last one on its cell. */
  lemma DistinctAllLast(rs: seq<MonsterRecord>)
    requires DistinctPositions(rs)
    ensures forall k :: 0 <= k < |rs| ==> LastOnCell(rs, k, |rs|)
  {
  }

  lemma FlipIndexBound(w: nat, h: nat, x: int, y: int)
    requires 0 <= x < w && 0 <= y < h
    ensures 0 <= (h - 1 - y) * w + x < w * h
  {
    var row := h - 1 - y;
    assert 0 <= row < h;
    assert row * w <= (h - 1) * w by {
      assert (h - 1 - row) * w >= 0;
    }
    assert (h - 1) * w + w == h * w;
  }

  /** The position in the row-major, top-row-first code list of the tile at
      (x, y): loading flips the rows, so the first row read is y == h - 1. */
  function FlipIndex(w: nat, h: nat, x: int, y: int): (k: nat)
    requires 0 <= x < w && 0 <= y < h
    ensures k < w * h
  {
    FlipIndexBound(w, h, x, y);
    (h - 1 - y) * w + x
  }

  /** A monster built from `r`: its fields are the record's values and its counter is 0. */
  predicate Built(m: Monsters.Monster, r: MonsterRecord)
    reads m
  {
    m.x == r.x && m.y == r.y && m.hp == r.hp && m.damage == r.damage && m.sleepMs == r.sleepMs &&
    Monsters.KindOfCode(r.code) == Some(m.kind) && m.counter == 0
  }

  /** The grid is a list of `w` columns of `h` tiles each; tiles[x][y] is the tile at (x, y). */
  predicate Shaped(g: seq<seq<Tiles.Tile>>, w: nat, h: nat)
  {
    |g| == w && forall x :: 0 <= x < w ==> |g[x]| == h
  }

  /** `cellOf` names the cell of every tile, so no tile object is stored in two cells. */
  ghost predicate Indexed(g: seq<seq<Tiles.Tile>>, cellOf: map<Tiles.Tile, Cell>)
  {
    forall x, y :: 0 <= x < |g| && 0 <= y < |g[x]| ==> g[x][y] in cellOf && cellOf[g[x][y]] == (x, y)
  }

  /** The cells of the grid whose tiles block light. */
  ghost function OpaqueOf(g: seq<seq<Tiles.Tile>>, w: nat, h: nat): (s: set<Cell>)
    requires Shaped(g, w, h)
    ensures forall x, y :: 0 <= x < w && 0 <= y < h ==> ((x, y) in s <==> g[x][y].kind.IsOpaque())
    ensures forall c :: c in s ==> 0 <= c.0 < w && 0 <= c.1 < h
  {
    set x, y | 0 <= x < w && 0 <= y < h && g[x][y].kind.IsOpaque() :: (x, y)
  }

  /** The tile-grid part of loading: the tile at (x, y) is built from code
      number FlipIndex(w, h, x, y), every tile is unlit and vacant, and no tile
      object is stored in two cells. */
  method BuildGrid(w: nat, h: nat, codes: seq<string>) returns (grid: seq<seq<Tiles.Tile>>, ghost cellOf: map<Tiles.Tile, Cell>)
    requires |codes| == w * h
    ensures Shaped(grid, w, h) && Indexed(grid, cellOf)
    ensures forall x, y :: 0 <= x < w && 0 <= y < h ==>
      grid[x][y].kind == Tiles.TileTypeOf(codes[FlipIndex(w, h, x, y)]) &&
      !grid[x][y].lit && grid[x][y].occupied == null
    ensures forall t :: t in cellOf ==> fresh(t)
  {
    var filler := new Tiles.Tile("");
    grid := seq(w, _ => seq(h, _ => filler));
    cellOf := map[];
    // row i of the level data becomes grid row h - 1 - i
    var i := 0;
    while i < h
      invariant 0 <= i <= h && Shaped(grid, w, h)
      invariant forall x, y :: 0 <= x < w && h - i <= y < h ==>
        grid[x][y].kind == Tiles.TileTypeOf(codes[FlipIndex(w, h, x, y)]) &&
        !grid[x][y].lit && grid[x][y].occupied == null &&
        grid[x][y] in cellOf && cellOf[grid[x][y]] == (x, y)
      invariant forall t :: t in cellOf ==> fresh(t)
    {
      var j := 0;
      while j < w
        invariant 0 <= j <= w && Shaped(grid, w, h)
        invariant forall x, y :: 0 <= x < w && h - i - 1 <= y < h && (y == h - i - 1 ==> x < j) ==>
          grid[x][y].kind == Tiles.TileTypeOf(codes[FlipIndex(w, h, x, y)]) &&
          !grid[x][y].lit && grid[x][y].occupied == null &&
          grid[x][y] in cellOf && cellOf[grid[x][y]] == (x, y)
        invariant forall t :: t in cellOf ==> fresh(t)
      {
        FlipIndexBound(w, h, j, h - i - 1);
        var t := new Tiles.Tile(codes[i * w + j]);
        grid := grid[j := grid[j][h - i - 1 := t]];
        cellOf := cellOf[t := (j, h - i - 1)];
        j := j + 1;
      }
      i := i + 1;
    }
  }

  /** The tiles' slots hold what `occ` maps their cells to, and nothing elsewhere. */
  ghost predicate SlotsHold(grid: seq<seq<Tiles.Tile>>, cellOf: map<Tiles.Tile, Cell>, w: nat, h: nat,
                            occ: map<Cell, Monsters.Monster>)
    requires Shaped(grid, w, h) && Indexed(grid, cellOf)
    reads cellOf.Keys
  {
    forall x, y :: 0 <= x < w && 0 <= y < h ==>
      grid[x][y].occupied == if (x, y) in occ then occ[(x, y)] else null
  }

  /** The monsters of `list` were placed: monster k is built from record k,
      and `occ` maps each cell written so far to the monster written there
      last, which stands on that cell. */
  ghost predicate Placed(records: seq<MonsterRecord>, list: seq<Monsters.Monster>, occ: map<Cell, Monsters.Monster>)
    reads list
  {
    |list| <= |records| &&
    (forall k :: 0 <= k < |list| ==> Built(list[k], records[k])) &&
    Sweeping.Distinct(list) &&
    (forall c :: c in occ ==> occ[c] in list && occ[c].x == c.0 && occ[c].y == c.1) &&
    (forall k :: 0 <= k < |list| ==> (records[k].x, records[k].y) in occ) &&
    (forall k :: 0 <= k < |list| && LastOnCell(records, k, |list|) ==>
      occ[(records[k].x, records[k].y)] == list[k])
  }

  /** Placing a new monster built from the next record keeps Placed. */
  lemma PlacedStep(records: seq<MonsterRecord>, list: seq<Monsters.Monster>, occ: map<Cell, Monsters.Monster>,
                   m: Monsters.Monster)
    requires Placed(records, list, occ) && |list| < |records|
    requires Built(m, records[|list|]) && m !in list
    ensures Placed(records, list + [m], occ[(records[|list|].x, records[|list|].y) := m])
  {
    Sweeping.DistinctAppend(list, m);
    BuiltStep(records, list, m);
    OccupantsStep(records, list, occ, m);
  }

  /** The list part of PlacedStep. */
  lemma BuiltStep(records: seq<MonsterRecord>, list: seq<Monsters.Monster>, m: Monsters.Monster)
    requires |list| < |records| && forall k :: 0 <= k < |list| ==> Built(list[k], records[k])
    requires Built(m, records[|list|])
    ensures forall k :: 0 <= k < |list| + 1 ==> Built((list + [m])[k], records[k])
  {
  }

  /** The slot-map part of PlacedStep: the new monster overwrites its cell's entry. */
  lemma OccupantsStep(records: seq<MonsterRecord>, list: seq<Monsters.Monster>, occ: map<Cell, Monsters.Monster>,
                      m: Monsters.Monster)
    requires |list| < |records| && Built(m, records[|list|])
    requires forall c :: c in occ ==> occ[c] in list && occ[c].x == c.0 && occ[c].y == c.1
    requires forall k :: 0 <= k < |list| ==> (records[k].x, records[k].y) in occ
    requires forall k :: 0 <= k < |list| && LastOnCell(records, k, |list|) ==>
      occ[(records[k].x, records[k].y)] == list[k]
    ensures var list', occ' := list + [m], occ[(records[|list|].x, records[|list|].y) := m];
      (forall c :: c in occ' ==> occ'[c] in list' && occ'[c].x == c.0 && occ'[c].y == c.1) &&
      (forall k :: 0 <= k < |list'| ==> (records[k].x, records[k].y) in occ') &&
      (forall k :: 0 <= k < |list'| && LastOnCell(records, k, |list'|) ==>
        occ'[(records[k].x, records[k].y)] == list'[k])
  {
    var r := records[|list|];
    var list', occ' := list + [m], occ[(r.x, r.y) := m];
    assert forall c :: c in occ' ==> occ'[c] in list' && occ'[c].x == c.0 && occ'[c].y == c.1;
    forall k | 0 <= k < |list'| && LastOnCell(records, k, |list'|)
      ensures occ'[(records[k].x, records[k].y)] == list'[k]
    {
      if k < |list| {
        assert (records[k].x, records[k].y) != (r.x, r.y);
        assert LastOnCell(records, k, |list|);
      }
    }
  }

  /** The monster part of loading: monster k is built from record k and
      recorded as the occupant of its starting tile. When two records share a
      tile the later one overwrites the slot: the last record on a tile owns
      it, so with distinct positions every listed monster owns its tile. */
  method PlaceMonsters(grid: seq<seq<Tiles.Tile>>, ghost cellOf: map<Tiles.Tile, Cell>, w: nat, h: nat,
                       records: seq<MonsterRecord>) returns (list: seq<Monsters.Monster>)
    requires Shaped(grid, w, h) && Indexed(grid, cellOf)
    requires forall k :: 0 <= k < |records| ==> 0 <= records[k].x < w && 0 <= records[k].y < h
    requires KnownCodes(records)
    requires forall x, y :: 0 <= x < w && 0 <= y < h ==> grid[x][y].occupied == null
    modifies cellOf.Keys`occupied
    ensures |list| == |records|
    ensures forall k :: 0 <= k < |records| ==> Built(list[k], records[k])
    ensures forall k :: 0 <= k < |records| ==> fresh(list[k])
    ensures Sweeping.Distinct(list)
    ensures forall k :: 0 <= k < |records| ==> grid[records[k].x][records[k].y].occupied != null
    ensures forall x, y :: 0 <= x < w && 0 <= y < h && grid[x][y].occupied != null ==>
      grid[x][y].occupied in list && grid[x][y].occupied.x == x && grid[x][y].occupied.y == y
    ensures forall k :: 0 <= k < |records| && LastOnCell(records, k, |records|) ==>
      grid[records[k].x][records[k].y].occupied == list[k]
    ensures DistinctPositions(records) ==>
      forall k :: 0 <= k < |records| ==> grid[records[k].x][records[k].y].occupied == list[k]
  {
    list := [];
    ghost var occ: map<Cell, Monsters.Monster> := map[];
    while |list| < |records|
      invariant Placed(records, list, occ) && SlotsHold(grid, cellOf, w, h, occ)
      invariant forall k :: 0 <= k < |list| ==> fresh(list[k])
      decreases |records| - |list|
    {
      var r := records[|list|];
      var m := PlaceMonster(grid, cellOf, w, h, r, occ);
      PlacedStep(records, list, occ, m);
      list := list + [m];
      occ := occ[(r.x, r.y) := m];
    }
    PlacedAll(grid, cellOf, w, h, records, list, occ);
  }

  /** One monster built from `r` and recorded as the occupant of its tile;
      no other tile's slot changes. */
  method PlaceMonster(grid: seq<seq<Tiles.Tile>>, ghost cellOf: map<Tiles.Tile, Cell>, w: nat, h: nat,
                      r: MonsterRecord, ghost occ: map<Cell, Monsters.Monster>) returns (m: Monsters.Monster)
    requires Shaped(grid, w, h) && Indexed(grid, cellOf)
    requires 0 <= r.x < w && 0 <= r.y < h && Monsters.KindOfCode(r.code).Some?
    requires SlotsHold(grid, cellOf, w, h, occ)
    modifies cellOf.Keys`occupied
    ensures fresh(m) && Built(m, r)
    ensures SlotsHold(grid, cellOf, w, h, occ[(r.x, r.y) := m])
  {
    m := new Monsters.Monster(r.code, r.x, r.y, r.hp, r.damage, r.sleepMs);
    grid[r.x][r.y].SetOccupied(m);
    ghost var occ' := occ[(r.x, r.y) := m];
    forall x, y | 0 <= x < w && 0 <= y < h
      ensures grid[x][y].occupied == if (x, y) in occ' then occ'[(x, y)] else null
    {
      if !(x == r.x && y == r.y) {
        assert cellOf[grid[x][y]] != cellOf[grid[r.x][r.y]];
      }
    }
  }

  /** Once every record is placed, the tiles' slots name exactly the monsters
      standing on them. */
  lemma PlacedAll(grid: seq<seq<Tiles.Tile>>, cellOf: map<Tiles.Tile, Cell>, w: nat, h: nat,
                  records: seq<MonsterRecord>, list: seq<Monsters.Monster>, occ: map<Cell, Monsters.Monster>)
    requires Shaped(grid, w, h) && Indexed(grid, cellOf)
    requires forall k :: 0 <= k < |records| ==> 0 <= records[k].x < w && 0 <= records[k].y < h
    requires Placed(records, list, occ) && SlotsHold(grid, cellOf, w, h, occ) && |list| == |records|
    ensures forall k :: 0 <= k < |records| ==> grid[records[k].x][records[k].y].occupied != null
    ensures forall x, y :: 0 <= x < w && 0 <= y < h && grid[x][y].occupied != null ==>
      grid[x][y].occupied in list && grid[x][y].occupied.x == x && grid[x][y].occupied.y == y
    ensures forall k :: 0 <= k < |records| && LastOnCell(records, k, |records|) ==>
      grid[records[k].x][records[k].y].occupied == list[k]
    ensures DistinctPositions(records) ==>
      forall k :: 0 <= k < |records| ==> grid[records[k].x][records[k].y].occupied == list[k]
  {
    if DistinctPositions(records) {
      DistinctAllLast(records);
    }
  }

  /** The listed monsters with no hit points left. */
  ghost function Dead(list: seq<Monsters.Monster>): (d: set<Monsters.Monster>)
    reads list
    ensures forall m :: m in list ==> (m in d <==> m.hp <= 0)
    ensures forall m :: m in d ==> m in list
  {
    set m | m in list && m.hp <= 0
  }

  /** The cells of the monsters of `before` that are missing from `after`. */
  ghost function Vacated(before: seq<Monsters.Monster>, after: seq<Monsters.Monster>): (c: set<Cell>)
    reads before
    ensures forall m :: m in before && m !in after ==> (m.x, m.y) in c
  {
    set m | m in before && m !in after :: (m.x, m.y)
  }

  /** A set holding the cell of every removed monster and nothing else is the vacated set. */
  lemma ClearedIsVacated(before: seq<Monsters.Monster>, after: seq<Monsters.Monster>, cleared: set<Cell>)
    requires forall m :: m in before && m !in after ==> (m.x, m.y) in cleared
    requires forall c :: c in cleared ==> exists m :: m in before && m !in after && (m.x, m.y) == c
    ensures cleared == Vacated(before, after)
  {
  }

  /** The step a key asks the avatar to take: w, s, a and d move up, down,
      left and right; every other key asks for none. */
  function KeyDelta(ch: char): (d: Monsters.Step)
    ensures d == Monsters.Step(0, 1) <==> ch == 'w'
    ensures d == Monsters.Step(0, -1) <==> ch == 's'
    ensures d == Monsters.Step(-1, 0) <==> ch == 'a'
    ensures d == Monsters.Step(1, 0) <==> ch == 'd'
    ensures d == Monsters.Step(0, 0) <==> ch !in {'w', 's', 'a', 'd'}
  {
    if ch == 'w' then Monsters.Step(0, 1)
    else if ch == 's' then Monsters.Step(0, -1)
    else if ch == 'a' then Monsters.Step(-1, 0)
    else if ch == 'd' then Monsters.Step(1, 0)
    else Monsters.Step(0, 0)
  }

  class World {
    const width: nat
    const height: nat
    /** tiles[x][y]; y grows upwards, so the level file's first row is y == height - 1.
        The list of columns is filled while loading and never rebound; only the
        tiles' own slots change afterwards. */
    const tiles: seq<seq<Tiles.Tile>>
    const avatar: Avatars.Avatar
    var monsterList: seq<Monsters.Monster>
    /** The cells whose tiles block light; tile kinds never change. */
    ghost const opaqueCells: set<Cell>
    /** The cell of each tile. */
    ghost const cellOf: map<Tiles.Tile, Cell>
    /** The lit cells, kept equal to the tiles' lit flags by Mirror(). */
    ghost var litCells: set<Cell>

    /** The grid has the world's extents and a separate tile object in every cell. */
    ghost predicate Wf()
    {
      Shaped(tiles, width, height) && Indexed(tiles, cellOf) &&
      (forall c :: c in opaqueCells ==> 0 <= c.0 < width && 0 <= c.1 < height) &&
      forall x, y :: 0 <= x < width && 0 <= y < height ==> ((x, y) in opaqueCells <==> tiles[x][y].kind.IsOpaque())
    }

    ghost function TileSet(): set<Tiles.Tile>
    {
      cellOf.Keys
    }

    ghost function GridCells(): set<Cell>
    {
      set x, y | 0 <= x < width && 0 <= y < height :: (x, y)
    }

    ghost function MonsterSet(): set<Monsters.Monster>
      reads this`monsterList
    {
      set m | m in monsterList
    }

    ghost predicate Mirror()
      requires Wf()
      reads this`litCells, TileSet()`lit
    {
      litCells <= GridCells() &&
      forall x, y {:trigger tiles[x][y]} :: 0 <= x < width && 0 <= y < height ==> (tiles[x][y].lit <==> (x, y) in litCells)
    }

    /** Every occupied tile holds a listed monster whose position is that tile. */
    ghost predicate SlotsAgree()
      requires Wf()
      reads this`monsterList, TileSet()`occupied, MonsterSet()`x, MonsterSet()`y
    {
      forall x, y :: 0 <= x < width && 0 <= y < height && tiles[x][y].occupied != null ==>
        tiles[x][y].occupied in monsterList && tiles[x][y].occupied.x == x && tiles[x][y].occupied.y == y
    }

    /** The monster list has no repeats and every listed monster stands inside the grid. */
    ghost predicate Positioned()
      reads this`monsterList, MonsterSet()`x, MonsterSet()`y
    {
      Sweeping.Distinct(monsterList) &&
      forall m :: m in monsterList ==> 0 <= m.x < width && 0 <= m.y < height
    }

    /** The occupancy invariant: the listed monsters are positioned, each is the
        occupant of its own tile (so no two share a tile), and every occupied
        tile holds a listed monster standing there. */
    ghost predicate Occupancy()
      requires Wf()
      reads this`monsterList, TileSet()`occupied, MonsterSet()`x, MonsterSet()`y
    {
      Positioned() &&
      (forall m :: m in monsterList ==> tiles[m.x][m.y].occupied == m) &&
      SlotsAgree()
    }

    /** No listed monster stands on the avatar's cell. */
    ghost predicate Apart()
      reads this`monsterList, avatar`x, avatar`y, MonsterSet()`x, MonsterSet()`y
    {
      forall m :: m in monsterList ==> !(m.x == avatar.x && m.y == avatar.y)
    }

    /** (x, y) is inside the grid and its terrain can be walked on. */
    predicate CanEnter(x: int, y: int)
      requires Wf()
    {
      0 <= x < width && 0 <= y < height && tiles[x][y].kind.IsPassable()
    }

    /** (x, y) can be entered and no monster is recorded on it. */
    ghost predicate Vacant(x: int, y: int)
      requires Wf()
      reads TileSet()`occupied
    {
      CanEnter(x, y) && tiles[x][y].occupied == null
    }

    /** A monster trying to move to (x, y) strikes the avatar: the cell is
        vacant and the avatar stands on it. */
    ghost predicate Strikes(x: int, y: int)
      requires Wf()
      reads TileSet()`occupied, avatar`x, avatar`y
    {
      Vacant(x, y) && x == avatar.x && y == avatar.y
    }

    /** A monster trying to move to (x, y) enters it: the cell is vacant and
        the avatar is elsewhere. */
    ghost predicate Enters(x: int, y: int)
      requires Wf()
      reads TileSet()`occupied, avatar`x, avatar`y
    {
      Vacant(x, y) && !(x == avatar.x && y == avatar.y)
    }

    /** What the slot of the tile at (i, j) holds after m tries to move to
        (x, y): when m enters, its new tile records it and its old one is
        cleared; every other slot, and every slot when m does not enter, keeps
        its occupant. */
    ghost function SlotAfterMove(m: Monsters.Monster, x: int, y: int, i: int, j: int): Monsters.Monster?
      requires Wf() && 0 <= i < width && 0 <= j < height
      reads TileSet()`occupied, avatar`x, avatar`y, m`x, m`y
    {
      if Enters(x, y) && i == x && j == y then m
      else if Enters(x, y) && i == m.x && j == m.y then null
      else tiles[i][j].occupied
    }

    /** The avatar can walk by (dx, dy): the cell there is vacant. */
    ghost predicate Walks(dx: int, dy: int)
      requires Wf()
      reads avatar`x, avatar`y, TileSet()`occupied
    {
      Vacant(avatar.x + dx, avatar.y + dy)
    }

    /** Stepping by (dx, dy), the avatar strikes m: m is recorded on that enterable cell. */
    ghost predicate Struck(m: Monsters.Monster, dx: int, dy: int)
      requires Wf()
      reads avatar`x, avatar`y, TileSet()`occupied
    {
      CanEnter(avatar.x + dx, avatar.y + dy) && tiles[avatar.x + dx][avatar.y + dy].occupied == m
    }

    /** The scene of a lighting pass from (x, y) with radius r over this grid. */
    ghost function SceneAt(x: int, y: int, r: real): Scene
    {
      Scene(width, height, opaqueCells, (x, y), r)
    }

    /** Loading from already-decoded level data: the avatar, the width * height
        tile codes (top row first) and the monster records. */
    constructor Load(w: nat, h: nat, avatarX: int, avatarY: int, avatarHp: int,
                     avatarDamage: int, avatarTorch: real, codes: seq<string>, records: seq<MonsterRecord>)
      requires |codes| == w * h
      requires forall k :: 0 <= k < |records| ==> 0 <= records[k].x < w && 0 <= records[k].y < h
      requires KnownCodes(records)
      ensures width == w && height == h && Wf()
      ensures avatar.x == avatarX && avatar.y == avatarY && avatar.hp == avatarHp
      ensures avatar.damage == avatarDamage && avatar.torch == avatarTorch
      ensures forall x, y :: 0 <= x < w && 0 <= y < h ==>
        tiles[x][y].kind == Tiles.TileTypeOf(codes[FlipIndex(w, h, x, y)])
      ensures |monsterList| == |records|
      ensures forall k :: 0 <= k < |records| ==> Built(monsterList[k], records[k])
      ensures forall k :: 0 <= k < |records| ==> tiles[records[k].x][records[k].y].occupied != null
      ensures forall k :: 0 <= k < |records| && LastOnCell(records, k, |records|) ==>
        tiles[records[k].x][records[k].y].occupied == monsterList[k]
      ensures Positioned() && SlotsAgree()
      ensures DistinctPositions(records) ==> Occupancy()
      ensures Mirror() && litCells == {}
      ensures fresh(avatar) && (forall t :: t in TileSet() ==> fresh(t)) && (forall m :: m in MonsterSet() ==> fresh(m))
    {
      avatar := new Avatars.Avatar(avatarX, avatarY, avatarHp, avatarDamage, avatarTorch);
      ghost var index;
      var grid;
      grid, index := BuildGrid(w, h, codes);
      width, height := w, h;
      tiles := grid;
      cellOf := index;
      opaqueCells := OpaqueOf(grid, w, h);
      monsterList := [];
      litCells := {};
      new;
      assert Mirror();
      Populate(records);
    }

    /** The monster part of loading, on a grid with no tile occupied yet. */
    method Populate(records: seq<MonsterRecord>)
      requires Wf()
      requires forall k :: 0 <= k < |records| ==> 0 <= records[k].x < width && 0 <= records[k].y < height
      requires KnownCodes(records)
      requires forall x, y :: 0 <= x < width && 0 <= y < height ==> tiles[x][y].occupied == null
      modifies this`monsterList, TileSet()`occupied
      ensures |monsterList| == |records|
      ensures forall k :: 0 <= k < |records| ==> Built(monsterList[k], records[k])
      ensures forall m :: m in MonsterSet() ==> fresh(m)
      ensures forall k :: 0 <= k < |records| ==> tiles[records[k].x][records[k].y].occupied != null
      ensures forall k :: 0 <= k < |records| && LastOnCell(records, k, |records|) ==>
        tiles[records[k].x][records[k].y].occupied == monsterList[k]
      ensures Positioned() && SlotsAgree()
      ensures DistinctPositions(records) ==> Occupancy()
    {
      monsterList := PlaceMonsters(tiles, cellOf, width, height, records);
    }

    /** The avatar tries to step by (dx, dy). Off the grid or onto terrain that
        cannot be walked on nothing happens; onto a tile recorded as occupied
        the occupant is struck and the avatar stays; otherwise the avatar moves
        there and takes the tile's damage. */
    method AvatarMove(dx: int, dy: int)
      requires Wf() && SlotsAgree()
      modifies avatar`x, avatar`y, avatar`hp, MonsterSet()`hp, MonsterSet()`counter
      ensures avatar.x == old(avatar.x) + (if old(Walks(dx, dy)) then dx else 0)
      ensures avatar.y == old(avatar.y) + (if old(Walks(dx, dy)) then dy else 0)
      ensures avatar.hp == if old(Walks(dx, dy)) then old(avatar.hp) - tiles[avatar.x][avatar.y].kind.Damage() else old(avatar.hp)
      ensures forall m :: m in monsterList ==>
        m.hp == old(m.hp) - (if old(Struck(m, dx, dy)) then avatar.damage else 0) &&
        m.counter == old(m.counter) + (if old(Struck(m, dx, dy)) then 3 else 0)
      ensures SlotsAgree()
      ensures old(Occupancy()) ==> Occupancy()
      ensures old(Occupancy() && Apart()) ==> Apart()
    {
      var x := avatar.x + dx;
      var y := avatar.y + dy;
      if 0 <= x < width && 0 <= y < height {
        var tile := tiles[x][y];
        if tile.kind.IsPassable() {
          if tile.occupied != null {
            tile.occupied.IncurDamage(avatar.damage);
          } else {
            avatar.IncurDamage(tile.kind.Damage());
            avatar.SetLocation(x, y);
          }
        }
      }
    }

    /** Monster m tries to move to (x, y). Off the grid, onto terrain that
        cannot be walked on or onto a tile recorded as occupied nothing happens;
        onto the avatar's cell the avatar is struck and m stays; otherwise m
        takes the tile's damage (which also raises its counter by 3) and moves,
        and the two tiles' slots follow it. */
    method MonsterMove(m: Monsters.Monster, x: int, y: int)
      requires Wf() && 0 <= m.x < width && 0 <= m.y < height
      modifies m`x, m`y, m`hp, m`counter, avatar`hp, TileSet()`occupied
      ensures m.x == (if old(Enters(x, y)) then x else old(m.x))
      ensures m.y == (if old(Enters(x, y)) then y else old(m.y))
      ensures m.hp == old(m.hp) - (if old(Enters(x, y)) then tiles[x][y].kind.Damage() else 0)
      ensures m.counter == old(m.counter) + (if old(Enters(x, y)) then 3 else 0)
      ensures avatar.hp == old(avatar.hp) - (if old(Strikes(x, y)) then m.damage else 0)
      ensures forall i, j :: 0 <= i < width && 0 <= j < height ==>
        tiles[i][j].occupied == old(SlotAfterMove(m, x, y, i, j))
      ensures 0 <= m.x < width && 0 <= m.y < height
      ensures old(SlotsAgree()) && m in monsterList ==> SlotsAgree()
      ensures old(Occupancy()) && m in monsterList ==> Occupancy()
      ensures old(Apart()) ==> Apart()
    {
      if 0 <= x < width && 0 <= y < height && tiles[x][y].kind.IsPassable() && tiles[x][y].occupied == null {
        if x == avatar.x && y == avatar.y {
          avatar.IncurDamage(m.damage);
        } else {
          Relocate(m, x, y);
        }
      }
    }

    /** A listed monster's proposal to stay where it is never succeeds: its
        own tile records it, so MonsterMove neither moves it nor strikes. */
    lemma StayRejected(m: Monsters.Monster)
      requires Wf() && Occupancy() && m in monsterList
      ensures !Enters(m.x, m.y) && !Strikes(m.x, m.y)
    {
      assert tiles[m.x][m.y].occupied == m;
    }

    /** The moving branch of MonsterMove: m takes the damage of the tile at (x, y),
        its old tile is cleared, and it is recorded on the new one. */
    method Relocate(m: Monsters.Monster, x: int, y: int)
      requires Wf() && 0 <= m.x < width && 0 <= m.y < height && 0 <= x < width && 0 <= y < height
      modifies m`x, m`y, m`hp, m`counter, TileSet()`occupied
      ensures m.x == x && m.y == y && m.hp == old(m.hp) - tiles[x][y].kind.Damage()
      ensures m.counter == old(m.counter) + 3
      ensures forall i, j :: 0 <= i < width && 0 <= j < height ==>
        tiles[i][j].occupied ==
          if i == x && j == y then m else if i == old(m.x) && j == old(m.y) then null else old(tiles[i][j].occupied)
    {
      m.IncurDamage(tiles[x][y].kind.Damage());
      ghost var fromX, fromY := m.x, m.y;
      tiles[m.x][m.y].SetOccupied(null);
      m.SetLocation(x, y);
      tiles[x][y].SetOccupied(m);
      forall i, j | 0 <= i < width && 0 <= j < height
        ensures tiles[i][j].occupied ==
          if i == x && j == y then m else if i == fromX && j == fromY then null else old(tiles[i][j].occupied)
      {
        if !(i == x && j == y) {
          assert cellOf[tiles[i][j]] != cellOf[tiles[x][y]];
        }
        if !(i == fromX && j == fromY) {
          assert cellOf[tiles[i][j]] != cellOf[tiles[fromX][fromY]];
        }
      }
    }

    /** The reaping pass of drawing: a Python `for` over the monster list that
        removes each monster without hit points and clears its tile, in which
        the monster right after a removed one is not examined. */
    method Reap()
      requires Wf() && Positioned()
      modifies this`monsterList, TileSet()`occupied
      ensures monsterList == Sweeping.Swept(old(monsterList), old(Dead(monsterList)), false)
      ensures Positioned()
      ensures forall m :: m in monsterList ==> m in old(monsterList)
      ensures forall x, y :: 0 <= x < width && 0 <= y < height ==>
        tiles[x][y].occupied == if (x, y) in Vacated(old(monsterList), monsterList) then null else old(tiles[x][y].occupied)
    {
      ghost var before: seq<Monsters.Monster> := monsterList;
      ghost var dead := Dead(monsterList);
      var list: seq<Monsters.Monster> := monsterList;
      ghost var cleared: set<Cell> := {};
      var i := 0;
      while i < |list|
        invariant i <= |list| + 1
        invariant Sweeping.SweepFrom(list, i, dead) == Sweeping.SweepFrom(before, 0, dead)
        invariant Sweeping.Distinct(list)
        invariant forall m :: m in list ==> m in before
        invariant forall m :: m in before ==> 0 <= m.x < width && 0 <= m.y < height
        invariant forall m :: m in before ==> (m in dead <==> m.hp <= 0)
        invariant forall m :: m in before && m !in list ==> (m.x, m.y) in cleared
        invariant forall c :: c in cleared ==> exists m :: m in before && m !in list && (m.x, m.y) == c
        invariant forall x, y :: 0 <= x < width && 0 <= y < height ==>
          tiles[x][y].occupied == if (x, y) in cleared then null else old(tiles[x][y].occupied)
        decreases |list| + 1 - i
      {
        var m := list[i];
        if m.hp <= 0 {
          assert m in dead;
          Sweeping.RemoveFirstMembers(list, m);
          list := Sweeping.RemoveFirst(list, m);
          var mx, my := m.x, m.y;
          cleared := cleared + {(mx, my)};
          Vacate(mx, my);
        } else {
          assert m !in dead;
        }
        i := i + 1;
      }
      monsterList := list;
      ClearedIsVacated(before, list, cleared);
      Sweeping.SweepFromIsSwept(before, 0, dead);
      assert before[..0] == [] && before[0..] == before;
    }

    /** The tile at (x, y) is marked unoccupied; no other slot changes. */
    method Vacate(x: int, y: int)
      requires Wf() && 0 <= x < width && 0 <= y < height
      modifies TileSet()`occupied
      ensures forall i, j :: 0 <= i < width && 0 <= j < height ==>
        tiles[i][j].occupied == if i == x && j == y then null else old(tiles[i][j].occupied)
    {
      tiles[x][y].SetOccupied(null);
      forall i, j | 0 <= i < width && 0 <= j < height && !(i == x && j == y)
        ensures tiles[i][j].occupied == old(tiles[i][j].occupied)
      {
        assert cellOf[tiles[i][j]] != cellOf[tiles[x][y]];
      }
    }

    /** The state change of drawing, which is its reaping pass; it keeps the
        occupancy invariant and keeps monsters off the avatar's cell. */
    method Draw()
      requires Wf() && Positioned()
      modifies this`monsterList, TileSet()`occupied
      ensures monsterList == Sweeping.Swept(old(monsterList), old(Dead(monsterList)), false)
      ensures Positioned()
      ensures forall x, y :: 0 <= x < width && 0 <= y < height ==>
        tiles[x][y].occupied == if (x, y) in Vacated(old(monsterList), monsterList) then null else old(tiles[x][y].occupied)
      ensures old(SlotsAgree()) ==> SlotsAgree()
      ensures old(Occupancy()) ==> Occupancy()
      ensures old(Apart()) ==> Apart()
    {
      Reap();
      if old(SlotsAgree()) {
        VacatingKeepsSlots();
      }
      if old(Occupancy()) {
        VacatingKeepsOccupancy();
      }
      if old(Apart()) {
        ShrinkingKeepsApart();
      }
    }

    /** Removing monsters from the list and clearing exactly the cells they
        stood on keeps the occupancy invariant. */
    twostate lemma VacatingKeepsOccupancy()
      requires Wf() && old(Occupancy()) && Positioned()
      requires forall m :: m in monsterList ==> m in old(monsterList)
      requires forall m :: m in old(monsterList) ==> m.x == old(m.x) && m.y == old(m.y)
      requires forall x, y :: 0 <= x < width && 0 <= y < height ==>
        tiles[x][y].occupied == if (x, y) in Vacated(old(monsterList), monsterList) then null else old(tiles[x][y].occupied)
      ensures Occupancy()
    {
      forall m | m in monsterList ensures tiles[m.x][m.y].occupied == m {
        assert (m.x, m.y) !in Vacated(old(monsterList), monsterList);
      }
      VacatingKeepsSlots();
    }

    /** Removing monsters from the list and clearing exactly the cells they
        stood on keeps every occupied tile naming a listed monster standing there. */
    twostate lemma VacatingKeepsSlots()
      requires Wf() && old(SlotsAgree())
      requires forall m :: m in monsterList ==> m in old(monsterList)
      requires forall m :: m in old(monsterList) ==> m.x == old(m.x) && m.y == old(m.y)
      requires forall x, y :: 0 <= x < width && 0 <= y < height ==>
        tiles[x][y].occupied == if (x, y) in Vacated(old(monsterList), monsterList) then null else old(tiles[x][y].occupied)
      ensures SlotsAgree()
    {
      forall x, y | 0 <= x < width && 0 <= y < height && tiles[x][y].occupied != null
        ensures tiles[x][y].occupied in monsterList
      {
        var o := tiles[x][y].occupied;
        assert o in old(monsterList) && old(o.x) == x && old(o.y) == y;
        assert (x, y) !in Vacated(old(monsterList), monsterList);
      }
    }

    /** Removing monsters from the list keeps every remaining one off the avatar's cell. */
    twostate lemma ShrinkingKeepsApart()
      requires old(Apart())
      requires avatar.x == old(avatar.x) && avatar.y == old(avatar.y)
      requires forall m :: m in monsterList ==> m in old(monsterList)
      requires forall m :: m in old(monsterList) ==> m.x == old(m.x) && m.y == old(m.y)
      ensures Apart()
    {
    }

    /** One pass of a monster's movement loop, with the random draw `direction`
        given. A monster without hit points does nothing and stops; otherwise it
        wanders. The result says whether the loop goes on. */
    method MonsterTick(m: Monsters.Monster, direction: int) returns (running: bool)
      requires Wf() && 0 <= m.x < width && 0 <= m.y < height
      modifies m`x, m`y, m`hp, m`counter, avatar`hp, TileSet()`occupied
      ensures old(m.hp) <= 0 ==>
        m.x == old(m.x) && m.y == old(m.y) && m.hp == old(m.hp) && m.counter == old(m.counter) &&
        avatar.hp == old(avatar.hp) &&
        forall i, j :: 0 <= i < width && 0 <= j < height ==> tiles[i][j].occupied == old(tiles[i][j].occupied)
      ensures old(m.hp) > 0 ==> Wandered(m, direction)
      ensures var d := Monsters.StepDelta(direction);
        var x, y := old(m.x) + d.dx, old(m.y) + d.dy;
        old(m.hp) > 0 ==> forall i, j :: 0 <= i < width && 0 <= j < height ==>
          tiles[i][j].occupied == old(SlotAfterMove(m, x, y, i, j))
      ensures running <==> m.hp > 0
      ensures 0 <= m.x < width && 0 <= m.y < height
      ensures old(SlotsAgree()) && m in monsterList ==> SlotsAgree()
      ensures old(Occupancy()) && m in monsterList ==> Occupancy()
      ensures old(Apart()) ==> Apart()
    {
      if m.hp <= 0 {
        return false;
      }
      Wander(m, direction);
      running := m.hp > 0;
    }

    /** The effect of a wandering step of a living monster m with the draw
        `direction` on the monster and the avatar: its timer has ticked and it
        has tried to move to the cell the draw selects, as MonsterMove
        describes. (The tiles' slots follow SlotAfterMove.) */
    twostate predicate Wandered(m: Monsters.Monster, direction: int)
      requires Wf()
      reads m, avatar, TileSet()
    {
      var d := Monsters.StepDelta(direction);
      var (x, y) := (old(m.x) + d.dx, old(m.y) + d.dy);
      m.x == (if old(Enters(x, y)) then x else old(m.x)) &&
      m.y == (if old(Enters(x, y)) then y else old(m.y)) &&
      m.hp == old(m.hp) - (if old(Enters(x, y)) then tiles[x][y].kind.Damage() else 0) &&
      m.counter == Monsters.TickedCounter(old(m.counter)) + (if old(Enters(x, y)) then 3 else 0) &&
      avatar.hp == old(avatar.hp) - (if old(Strikes(x, y)) then m.damage else 0)
    }

    /** The body of the movement loop for a living monster: the damage timer
        ticks down, the draw selects a step, and the monster, still alive,
        tries to move there. */
    method Wander(m: Monsters.Monster, direction: int)
      requires Wf() && 0 <= m.x < width && 0 <= m.y < height && m.hp > 0
      modifies m`x, m`y, m`hp, m`counter, avatar`hp, TileSet()`occupied
      ensures var d := Monsters.StepDelta(direction);
        var x, y := old(m.x) + d.dx, old(m.y) + d.dy;
        m.x == (if old(Enters(x, y)) then x else old(m.x)) &&
        m.y == (if old(Enters(x, y)) then y else old(m.y)) &&
        m.hp == old(m.hp) - (if old(Enters(x, y)) then tiles[x][y].kind.Damage() else 0) &&
        m.counter == Monsters.TickedCounter(old(m.counter)) + (if old(Enters(x, y)) then 3 else 0) &&
        avatar.hp == old(avatar.hp) - (if old(Strikes(x, y)) then m.damage else 0)
      ensures var d := Monsters.StepDelta(direction);
        var x, y := old(m.x) + d.dx, old(m.y) + d.dy;
        forall i, j :: 0 <= i < width && 0 <= j < height ==>
          tiles[i][j].occupied == old(SlotAfterMove(m, x, y, i, j))
      ensures 0 <= m.x < width && 0 <= m.y < height
      ensures old(SlotsAgree()) && m in monsterList ==> SlotsAgree()
      ensures old(Occupancy()) && m in monsterList ==> Occupancy()
      ensures old(Apart()) ==> Apart()
    {
      var d := Monsters.StepDelta(direction);
      var before := m.counter;
      MonsterMove(m, m.x + d.dx, m.y + d.dy);
      // the decrement at the top of the tick acts on the counter as it was
      // before the move; the move's own raise comes on top of it
      m.counter := Monsters.TickedCounter(before) + (m.counter - before);
    }

    /** A monster's movement loop over the random draws `draws`: it goes on
        while the monster has hit points and draws remain, and returns how many
        passes it made. The world's invariants hold after every pass. */
    method Run(m: Monsters.Monster, draws: seq<int>) returns (passes: nat)
      requires Wf() && 0 <= m.x < width && 0 <= m.y < height
      modifies m`x, m`y, m`hp, m`counter, avatar`hp, TileSet()`occupied
      ensures passes <= |draws|
      ensures passes < |draws| ==> m.hp <= 0
      ensures old(m.hp) <= 0 ==> passes == 0 && m.hp == old(m.hp) && m.x == old(m.x) && m.y == old(m.y)
      ensures old(m.hp) <= 0 ==> avatar.hp == old(avatar.hp) && unchanged(TileSet()`occupied)
      ensures avatar.x == old(avatar.x) && avatar.y == old(avatar.y)
      ensures avatar.damage == old(avatar.damage) && avatar.torch == old(avatar.torch)
      ensures 0 <= m.x < width && 0 <= m.y < height
      ensures old(SlotsAgree()) && m in monsterList ==> SlotsAgree()
      ensures old(Occupancy()) && m in monsterList ==> Occupancy()
      ensures old(Apart()) ==> Apart()
    {
      passes := 0;
      while passes < |draws| && m.hp > 0
        invariant passes <= |draws|
        invariant 0 <= m.x < width && 0 <= m.y < height
        invariant old(m.hp) <= 0 ==> passes == 0
        invariant passes == 0 ==> m.hp == old(m.hp) && m.x == old(m.x) && m.y == old(m.y)
        invariant passes == 0 ==> avatar.hp == old(avatar.hp) && unchanged(TileSet()`occupied)
        invariant avatar.x == old(avatar.x) && avatar.y == old(avatar.y)
        invariant avatar.damage == old(avatar.damage) && avatar.torch == old(avatar.torch)
        invariant old(SlotsAgree()) && m in monsterList ==> SlotsAgree()
        invariant old(Occupancy()) && m in monsterList ==> Occupancy()
        invariant old(Apart()) ==> Apart()
      {
        var _ := MonsterTick(m, draws[passes]);
        passes := passes + 1;
      }
    }

    /** The effect of the key ch on the avatar and the monsters: + and - change
        the torch radius; w, s, a and d try a one-cell step; the avatar walks
        onto a vacant enterable cell, taking its terrain damage, and strikes a
        monster recorded on an enterable cell, which loses the avatar's damage
        and whose timer rises by 3; otherwise nothing changes. */
    twostate predicate KeyApplied(ch: char)
      requires Wf()
      reads this`monsterList, avatar`x, avatar`y, avatar`hp, avatar`torch, avatar`damage
      reads MonsterSet()`hp, MonsterSet()`counter
    {
      var d := KeyDelta(ch);
      var walks := d != Monsters.Step(0, 0) && old(Walks(d.dx, d.dy));
      (ch == '+' ==> avatar.torch == old(avatar.torch) + Avatars.TorchDelta) &&
      (ch == '-' ==> avatar.torch == Avatars.DecreasedTorch(old(avatar.torch))) &&
      (ch != '+' && ch != '-' ==> avatar.torch == old(avatar.torch)) &&
      avatar.x == old(avatar.x) + (if walks then d.dx else 0) &&
      avatar.y == old(avatar.y) + (if walks then d.dy else 0) &&
      avatar.hp == (if walks then old(avatar.hp) - tiles[avatar.x][avatar.y].kind.Damage() else old(avatar.hp)) &&
      monsterList == old(monsterList) &&
      forall m :: m in monsterList ==>
        m.hp == old(m.hp) - (if d != Monsters.Step(0, 0) && old(Struck(m, d.dx, d.dy)) then avatar.damage else 0) &&
        m.counter == old(m.counter) + (if d != Monsters.Step(0, 0) && old(Struck(m, d.dx, d.dy)) then 3 else 0)
    }

    /** A key press: w, s, a and d try to move the avatar one step, + and -
        change the torch radius, and then the lighting is redone from the
        avatar's position with its radius. */
    method HandleKey(ch: char)
      requires Wf() && Mirror() && SlotsAgree()
      modifies avatar`x, avatar`y, avatar`hp, avatar`torch, MonsterSet()`hp, MonsterSet()`counter
      modifies this`litCells, TileSet()`lit
      ensures KeyApplied(ch)
      ensures Mirror()
      ensures forall c :: c in litCells <==> Reachable(SceneAt(avatar.x, avatar.y, avatar.torch), c)
      ensures SlotsAgree()
      ensures old(Occupancy()) ==> Occupancy()
      ensures old(Occupancy() && Apart()) ==> Apart()
    {
      ApplyKey(ch);
      Relight();
    }

    /** The movement and torch part of a key press. */
    method ApplyKey(ch: char)
      requires Wf() && SlotsAgree()
      modifies avatar`x, avatar`y, avatar`hp, avatar`torch, MonsterSet()`hp, MonsterSet()`counter
      ensures KeyApplied(ch)
      ensures SlotsAgree()
      ensures old(Occupancy()) ==> Occupancy()
      ensures old(Occupancy() && Apart()) ==> Apart()
    {
      var d := KeyDelta(ch);
      if d.dx != 0 || d.dy != 0 {
        AvatarMove(d.dx, d.dy);
      } else {
        TorchKey(ch);
      }
    }

    /** The torch part of a key press: + widens the radius by 0.5, - narrows it
        down to the floor of 2.0, and other keys leave it. */
    method TorchKey(ch: char)
      modifies avatar`torch
      ensures ch == '+' ==> avatar.torch == old(avatar.torch) + Avatars.TorchDelta
      ensures ch == '-' ==> avatar.torch == Avatars.DecreasedTorch(old(avatar.torch))
      ensures ch != '+' && ch != '-' ==> avatar.torch == old(avatar.torch)
    {
      if ch == '+' {
        avatar.IncreaseTorch();
      } else if ch == '-' {
        avatar.DecreaseTorch();
      }
    }

    /** Lighting is reset, then redone from the avatar with its torch radius. */
    method Relight()
      requires Wf()
      modifies this`litCells, TileSet()`lit
      ensures Mirror()
      ensures forall c :: c in litCells <==> Reachable(SceneAt(avatar.x, avatar.y, avatar.torch), c)
      ensures old(SlotsAgree()) ==> SlotsAgree()
      ensures old(Occupancy()) ==> Occupancy()
      ensures old(Apart()) ==> Apart()
    {
      SetLit(false);
      var _ := Light(avatar.x, avatar.y, avatar.torch);
    }

    /** The last part of building a world: an initial lighting pass from the
        avatar, then a draw. Returns the number of cells lit. */
    method Start() returns (lit: int)
      requires Wf() && Mirror() && litCells == {} && Positioned()
      modifies this`litCells, TileSet()`lit, this`monsterList, TileSet()`occupied
      ensures Mirror()
      ensures forall c :: c in litCells <==> Reachable(SceneAt(avatar.x, avatar.y, avatar.torch), c)
      ensures lit == |litCells|
      ensures monsterList == Sweeping.Swept(old(monsterList), old(Dead(monsterList)), false)
      ensures Positioned()
      ensures forall x, y :: 0 <= x < width && 0 <= y < height ==>
        tiles[x][y].occupied == if (x, y) in Vacated(old(monsterList), monsterList) then null else old(tiles[x][y].occupied)
      ensures old(SlotsAgree()) ==> SlotsAgree()
      ensures old(Occupancy()) ==> Occupancy()
      ensures old(Apart()) ==> Apart()
    {
      lit := Light(avatar.x, avatar.y, avatar.torch);
      assert monsterList == old(monsterList);
      assert forall x, y :: 0 <= x < width && 0 <= y < height ==> tiles[x][y].occupied == old(tiles[x][y].occupied);
      assert old(SlotsAgree()) ==> SlotsAgree();
      assert old(Occupancy()) ==> Occupancy();
      assert old(Apart()) ==> Apart();
      assert Dead(monsterList) == old(Dead(monsterList));
      Draw();
    }

    /** The game goes on while the avatar has hit points. */
    predicate AvatarAlive()
      reads avatar
    {
      avatar.hp > 0
    }

    /** The number of monsters still listed; without repeats, the number of different monsters. */
    function NumMonsters(): (n: nat)
      reads this
      ensures |monsterList| == n
      ensures Sweeping.Distinct(monsterList) ==> n == |MonsterSet()|
    {
      Sweeping.CardOfDistinct(monsterList);
      |monsterList|
    }

    /** Every tile's lit flag becomes `value`; nothing else changes. */
    method SetLit(value: bool)
      requires Wf()
      modifies this`litCells, TileSet()`lit
      ensures Mirror() && litCells == if value then GridCells() else {}
      ensures forall x, y :: 0 <= x < width && 0 <= y < height ==> tiles[x][y].lit == value
    {
      var x := 0;
      while x < width
        invariant 0 <= x <= width
        invariant forall i, j :: 0 <= i < x && 0 <= j < height ==> tiles[i][j].lit == value
      {
        var y := 0;
        while y < height
          invariant 0 <= y <= height
          invariant forall i, j :: 0 <= i < x && 0 <= j < height ==> tiles[i][j].lit == value
          invariant forall j :: 0 <= j < y ==> tiles[x][j].lit == value
        {
          tiles[x][y].SetLit(value);
          y := y + 1;
        }
        x := x + 1;
      }
      litCells := if value then GridCells() else {};
    }

    /** The recursive fill from (currentX, currentY) of a pass centred on
        (x, y) with radius r: the lit set becomes Fill of the old one, and the
        result is the number of cells it lit. */
    method LightDFS(x: int, y: int, currentX: int, currentY: int, r: real) returns (result: int)
      requires Wf() && Mirror()
      modifies this`litCells, TileSet()`lit
      decreases GridCells() - litCells
      ensures Mirror()
      ensures litCells == Fill(SceneAt(x, y, r), old(litCells), (currentX, currentY))
      ensures result == |litCells| - |old(litCells)|
    {
      if currentX < 0 || currentY < 0 || currentX >= width || currentY >= height ||
         tiles[currentX][currentY].lit {
        FillStops(SceneAt(x, y, r), litCells, (currentX, currentY));
        return 0;
      }
      result := 0;
      if InRadius((x, y), (currentX, currentY), r) {
        ghost var l0 := litCells;
        ghost var sc := SceneAt(x, y, r);
        assert Lightable(sc, (currentX, currentY)) && (currentX, currentY) !in l0;
        tiles[currentX][currentY].SetLit(true);
        litCells := litCells + {(currentX, currentY)};
        result := result + 1;
        if !tiles[currentX][currentY].kind.IsOpaque() {
          assert (currentX, currentY) !in sc.blocking;
          ghost var l1 := litCells;
          var west := LightDFS(x, y, currentX - 1, currentY, r);
          ghost var l2 := litCells;
          var east := LightDFS(x, y, currentX + 1, currentY, r);
          ghost var l3 := litCells;
          var north := LightDFS(x, y, currentX, currentY - 1, r);
          ghost var l4 := litCells;
          var south := LightDFS(x, y, currentX, currentY + 1, r);
          result := result + west + east + north + south;
          FillStepLit(sc, l0, currentX, currentY, l2, l3, l4, litCells);
          CountStep(l0, (currentX, currentY), l2, l3, l4, litCells, west, east, north, south);
        } else {
          FillBlocked(sc, l0, (currentX, currentY));
          assert |litCells| == |l0| + 1;
        }
      } else {
        FillStops(SceneAt(x, y, r), litCells, (currentX, currentY));
      }
    }

    /** A lighting pass from (x, y); from an unlit grid it lights exactly the
        cells light can reach and returns how many there are. */
    method Light(x: int, y: int, r: real) returns (result: int)
      requires Wf() && Mirror()
      modifies this`litCells, TileSet()`lit
      ensures Mirror()
      ensures litCells == Fill(SceneAt(x, y, r), old(litCells), (x, y))
      ensures result == |litCells| - |old(litCells)|
      ensures old(litCells) == {} ==>
        (forall c :: c in litCells <==> Reachable(SceneAt(x, y, r), c)) && result == |litCells|
    {
      result := LightDFS(x, y, x, y, r);
      FillFromOriginIsReachable(SceneAt(x, y, r));
    }
  }
}
