# Ultima 0.1 game-state core in Dafny

This project models the game state of a small Python clone of Ultima 0.1 and proves
properties of that model. A `World` holds things of three kinds:

- a grid of tiles, each with a terrain type, a lit flag and an occupant slot;
- an avatar, steered by key presses, with a position, hit points, damage and a torch radius;
- a list of monsters, each of which wanders by random unit steps.

The model covers the following:

- **Terrain** (`Tiles`): one-letter codes map to terrain types. Opacity, passability and
  entry damage follow from the type. Each `Tile` object has mutable `lit` and `occupied`
  slots.
- **Avatar and monsters** (`Avatars`, `Monsters`):
  - Damage is unclamped, and a monster's damage timer rises by 3 per hit.
  - The torch moves in steps of 0.5 and never goes below 2.0.
  - A monster code maps to a kind.
  - A movement tick decrements the timer and turns a draw into a unit step.
- **World rules** (`Worlds`), in the source's imperative form, as the `World` class:
  - Loading flips the rows of the level data and places the monsters.
  - Avatar and monster moves are resolved, with attack, rejection and relocation, and the
    tiles' occupant slots are kept up to date.
  - A key press is handled and always ends with a relight.
  - `setLit` sets every tile's lit flag.
  - `lightDFS` is a recursive flood fill, and `light` starts it from the avatar.
  - The reaping loop of `draw` removes dead monsters from a list while iterating over it.
  - The monster movement loop of `Monster.run` is modelled with its draws given.
- **Lighting theory** (`Lighting`): `Fill` is a function that describes the depth-first
  fill. It is proved to light exactly the cells reachable from the avatar. A cell is
  reachable when an orthogonal path leads to it inside the grid and strictly inside the
  torch radius, where every cell of the path except possibly the last is transparent.
- **Reaping theory** (`Sweeping`): Python's `for m in list: … list.remove(m)` is modelled
  with list-iterator semantics. It is proved equal to a reference definition read off the
  original order (`Swept`). Only dead monsters are removed, and survivors keep their order.
  The monster right after a removed one is not examined in that pass, so a dead monster
  can survive one pass.

Proved invariants of the world:

- `Occupancy`: every listed monster is recorded on its own tile, so no two share one.
- `SlotsAgree`: every occupied tile holds a listed monster standing there.
- `Apart`: no monster stands on the avatar's cell.
- `Mirror`: the ghost set of lit cells matches the tiles' lit flags.

Each mutating operation states which of these it keeps:

- Loading establishes `SlotsAgree` and `Mirror`, and also `Occupancy` when the starting
  cells are distinct.
- An avatar move or a key press leaves `SlotsAgree` holding and keeps `Occupancy`. It
  keeps `Apart` when `Occupancy` held too.
- A monster move, tick or run of a listed monster keeps `SlotsAgree` and `Occupancy`. Each
  of them keeps `Apart`.
- Drawing, whose state change is reaping, keeps `SlotsAgree`, `Occupancy` and `Apart`.
  `Reap` itself states the new list and slot map, from which `Draw` derives them.
- Lighting (`SetLit`, `LightDFS`, `Light`) re-establishes `Mirror` and changes only lit
  flags. A relight keeps the other three.

Two behaviours of the code that are easy to misread:

- **Reaping.** A render pass does not remove every monster with hp ≤ 0. The code removes
  inside its `for` loop, which skips the element after each removal, so a dead monster
  right behind another dead one survives the pass. `Worlds.World.Reap` and
  `Sweeping.DeadAfterRemovedSurvives` state this.
- **Monster codes.** A malformed monster code does not give an Invalid kind. At
  Monster.py:52 the code compares (`==`) instead of assigning, so `self.type` is never set
  and the comparison itself raises `AttributeError`. Building such a monster fails, and
  loading a level with one fails with it. `Monsters.KindOfCode` gives `None` for such a
  code. Building a monster, and loading, require every code to be known.

Python integers are unbounded, so `int` is used throughout, with no wrap-around to model.
The torch radius is a `real`; the 0.5 steps are exact binary fractions. The test
`sqrt(dx*dx + dy*dy) < r` is replaced by the equivalent exact test
`0 < r && dx*dx + dy*dy < r*r`.

## Model

| member | source | states |
|---|---|---|
| Tiles.TileTypeOf | Tile.py:36-51 | B, L, W, F, G, M and S give Floor, Lava, Water, Forest, Grass, Mountain and Wall, each if and only if; every other code gives Invalid |
| Tiles.TileType.IsOpaque | Tile.py:75-83 | a type blocks light exactly when it is Forest, Mountain or Wall (so Floor, Lava, Water, Grass and Invalid do not) |
| Tiles.TileType.IsPassable | Tile.py:98-104 | a type can be walked on exactly when it is not Water, Mountain or Wall |
| Tiles.TileType.Damage | Tile.py:88-92 | entry damage lies in {0, 1} and is 1 exactly for Lava |
| Tiles.OnlyForestIsOpaqueAndPassable | Tile.py:75-104 | Forest is the one type that is both opaque and passable |
| Tiles.Tile.constructor | Tile.py:32-51 | a new tile has the code's type, is unlit and has no occupant |
| Tiles.Tile.SetOccupied | Tile.py:56-57 | the occupant becomes the value given; only that slot may change, and the lit flag is kept |
| Tiles.Tile.SetLit | Tile.py:69-70 | the lit flag becomes the value given; only that slot may change, and the occupant is kept |
| Monsters.KindOfCode | Monster.py:43-52 | SK, OR, BA and SL give Skeleton, Orc, Bat and Slime, each if and only if; any other code gives None, and Invalid is never produced |
| Monsters.StepDelta | Monster.py:133-143 | a draw of 0..4 selects (0,0), (0,1), (0,-1), (-1,0) or (1,0); other draws give no step; the step has length 1 on one axis exactly for the draws 1..4 |
| Monsters.TickedCounter | Monster.py:130-131 | the timer drops by 1 only when positive and never goes from non-negative to negative |
| Monsters.Monster.constructor | Monster.py:33-52 | from a known code, a new monster stores x, y, hp, damage and delay as given, has the code's kind and a timer of 0 |
| Monsters.Monster.IncurDamage | Monster.py:59-61 | hp drops by exactly the points given, unclamped, and the timer rises by exactly 3; position and damage are kept |
| Monsters.Monster.SetLocation | Monster.py:117-119 | the position becomes (x, y); hp, damage and timer are kept |
| Avatars.DecreasedTorch | Avatar.py:76-79 | after a decrease the radius is at least 2.0: it is t - 0.5 when t ≥ 2.5 and exactly 2.0 otherwise, so a radius loaded below the floor is raised to it |
| Avatars.DecreasedTimesClosedForm | Avatar.py:76-79 | n ≥ 1 decreases in a row give max(2.0, t - n/2) |
| Avatars.DecreasesReachFloor | Avatar.py:76-79 | repeated decreases never go below 2.0, and enough of them reach exactly 2.0 |
| Avatars.Avatar.constructor | Avatar.py:17-23 | a new avatar stores position, hp, damage and torch radius as given |
| Avatars.Avatar.SetLocation | Avatar.py:27-29 | the position becomes (x, y); hp, damage and torch are kept |
| Avatars.Avatar.IncurDamage | Avatar.py:58-59 | hp drops by exactly the damage given, unclamped, so it may reach 0 or less; nothing else changes |
| Avatars.Avatar.IncreaseTorch | Avatar.py:70-71 | the radius grows by exactly 0.5; position, hp and damage are kept |
| Avatars.Avatar.DecreaseTorch | Avatar.py:76-79 | the radius becomes DecreasedTorch of the old one, at least 2.0; position, hp and damage are kept |
| Worlds.FlipIndex | World.py:47-50 | the tile at (x, y) comes from code number (h - 1 - y) * w + x, which is inside the w * h codes |
| Worlds.BuildGrid | World.py:47-50 | the grid has w columns of h tiles; the tile at (x, y) is built from code FlipIndex(w, h, x, y), unlit and without occupant; no tile object sits in two cells |
| Worlds.PlaceMonster | World.py:59-62 | from a record with a known code inside the grid, one monster is built from its record and recorded on its starting tile; no other tile's slot changes |
| Worlds.PlacedStep | World.py:58-65 | appending a monster built from the next record and recording it on its tile keeps the placement invariant |
| Worlds.PlacedAll | World.py:58-65 | once every record is placed, each starting tile is occupied, every occupied tile holds a listed monster standing there, the monster of the last record on a cell owns that cell, and with distinct starting cells monster k owns its tile |
| Worlds.PlaceMonsters | World.py:54-65 | when every code is known, monster k is built from record k with timer 0, the list has no repeats, each record's tile is occupied by a listed monster standing there, a record that is the last one on its cell has its monster as that cell's occupant (a later record on the same cell overwrites the slot), so with distinct starting cells tile k's occupant is monster k; every monster is newly allocated |
| Worlds.Dead | World.py:175 | a listed monster is dead exactly when its hp is at most 0 |
| Worlds.Vacated | World.py:176-177 | the cell of every monster missing after reaping is among the vacated cells |
| Worlds.ClearedIsVacated | World.py:174-177 | the cells cleared by the loop, one per removed monster, are exactly the vacated cells |
| Worlds.KeyDelta | World.py:83-92 | w, s, a and d give (0,1), (0,-1), (-1,0) and (1,0), each if and only if; every other key gives no step |
| Worlds.World.Load | World.py:34-65 | when every monster code is known, the world has the given extents and avatar; the tile at (x, y) has the type of code FlipIndex(w, h, x, y); monster k is built from record k; every record's tile is occupied, by the monster of the last record on it; the slots agree with the list; with distinct starting cells the occupancy invariant holds; nothing is lit; the avatar, every tile and every monster are newly allocated |
| Worlds.World.Populate | World.py:54-65 | on an empty grid and with every code known, the monsters are placed as PlaceMonsters states (the last record on a cell owns it), each newly allocated, and the list becomes the world's monster list |
| Worlds.World.AvatarMove | World.py:144-162 | off the grid or onto impassable terrain nothing changes; onto a recorded occupant the occupant loses the avatar's damage, its timer rises by 3 and the avatar stays; otherwise the avatar moves and loses the tile's damage; no tile slot changes; SlotsAgree holds afterwards, Occupancy is kept, and Apart is kept when Occupancy held too |
| Worlds.World.MonsterMove | World.py:118-138 | off the grid, onto impassable or occupied terrain nothing changes; onto the avatar's cell only the avatar loses the monster's damage; otherwise the monster takes the tile's damage, its timer rises by 3 even at damage 0, it moves, its old slot is cleared and its new one set, and no other slot changes; the occupancy invariant and Apart are kept, and so is SlotsAgree for a listed monster |
| Worlds.World.StayRejected | World.py:120-123 | under the occupancy invariant a listed monster's proposal of its own cell is rejected: it neither moves nor strikes |
| Worlds.World.Relocate | World.py:131-137 | the moving branch: tile damage, timer +3, new position, old slot cleared, new slot set, all other slots kept |
| Worlds.World.Reap | World.py:174-177 | the new list is Swept of the old list and its dead monsters: what the Python for-loop with list.remove leaves; only listed monsters remain; exactly the cells of the removed monsters have their slots cleared, and no other slot changes |
| Worlds.World.Vacate | World.py:177 | the slot at (x, y) is cleared and no other slot changes |
| Worlds.World.Draw | World.py:168-181 | the state change of a render pass is the reaping of Reap; it keeps SlotsAgree, the occupancy invariant and Apart |
| Worlds.World.VacatingKeepsOccupancy | World.py:174-177 | dropping monsters from the list and clearing exactly their cells keeps the occupancy invariant |
| Worlds.World.VacatingKeepsSlots | World.py:174-177 | dropping monsters from the list and clearing exactly their cells keeps every occupied tile naming a listed monster standing there |
| Worlds.World.ShrinkingKeepsApart | World.py:174-177 | dropping monsters from the list, with nothing moving, keeps every remaining monster off the avatar's cell |
| Worlds.World.MonsterTick | Monster.py:127-151 | a monster without hp changes nothing and stops; a living one ticks its timer and proposes the step of its draw to MonsterMove, with the tiles' slots as SlotAfterMove gives them; the result says whether it still has hp; Occupancy and SlotsAgree are kept for a listed monster, and Apart always |
| Worlds.World.Wander | Monster.py:129-151 | the timer becomes TickedCounter of the old one, then MonsterMove's effect for the proposed cell follows: position, hp, timer, avatar hp, and every tile slot as SlotAfterMove gives it; Occupancy and SlotsAgree are kept for a listed monster, and Apart always |
| Worlds.World.Run | Monster.py:124-151 | the loop stops before the draws run out only when hp is at most 0; a monster that starts without hp never moves, and then the avatar's hp and every tile slot are unchanged too; the avatar's position, damage and torch are kept; Occupancy and SlotsAgree hold after every pass for a listed monster, and Apart always |
| Worlds.World.HandleKey | World.py:82-103 | the key's effect is KeyApplied: + and - change only the torch, w/s/a/d resolve a step as AvatarMove does, other keys change nothing; then the lit cells are exactly those light reaches from the avatar's cell with its radius; the invariants are kept |
| Worlds.World.ApplyKey | World.py:83-99 | the movement and torch part of a key press has the effect KeyApplied and keeps the invariants |
| Worlds.World.TorchKey | World.py:93-96 | + widens the radius by 0.5, - narrows it as DecreasedTorch does, every other key keeps it |
| Worlds.World.Relight | World.py:102-103 | the grid is reset and relit from the avatar: the lit cells are exactly the reachable cells; occupants, monsters and avatar are untouched |
| Worlds.World.Start | World.py:73-75 | the first lighting pass lights exactly the reachable cells and returns their number; the render pass then reaps as Reap states: the list becomes Swept of the old one and exactly the vacated cells are cleared; SlotsAgree, Occupancy and Apart are kept |
| Worlds.World.NumMonsters | World.py:238-239 | the count is the length of the monster list, and without repeats it is the number of different monsters |
| Worlds.World.SetLit | World.py:230-233 | every tile's lit flag becomes the value given; types and occupants are untouched |
| Worlds.World.LightDFS | World.py:200-221 | the new lit set is Fill of the old one from the current cell, and the result is the number of cells newly lit |
| Worlds.World.Light | World.py:189-192 | a pass from (x, y) computes Fill from the origin; from an unlit grid it lights exactly the reachable cells and returns how many there are |
| Lighting.Fill | World.py:200-221 | the fill never unlights a cell |
| Lighting.FillStops | World.py:201-204 | started on a lit cell, off the grid or outside the radius, the fill changes nothing (so lightDFS returns 0) |
| Lighting.FillBlocked | World.py:212-216 | an opaque cell in reach is lit and the fill goes no further |
| Lighting.FillUnfolds | World.py:216-220 | from a transparent cell in reach the fill lights it and goes on to (x-1,y), (x+1,y), (x,y-1) and (x,y+1) in that order |
| Lighting.FillStepLit | World.py:216-220 | the lit sets after the four neighbour fills compose to the fill from the cell |
| Lighting.CountStep | World.py:214-220 | one for the cell plus what the four neighbour fills lit is the growth of the lit set |
| Lighting.FillLightable | World.py:201-213 | the fill lights only cells inside the grid and strictly inside the radius |
| Lighting.FillSpreads | World.py:216-220 | every transparent cell the fill lights has all of its lightable neighbours lit |
| Lighting.FillSound | World.py:212-220 | started at the origin or next to a reached transparent cell, the fill lights only reachable cells |
| Lighting.FillFromOriginIsReachable | World.py:189-221 | from an unlit grid the fill from the origin lights a cell if and only if it is reachable |
| Lighting.OriginReachable | World.py:212-214 | a lightable origin is reachable |
| Lighting.PathExtends | World.py:216-220 | light passes from a reached transparent cell to any lightable neighbour |
| Lighting.ReachableIsLightable | World.py:201-213 | every reachable cell is inside the grid and the radius |
| Lighting.ClosedContainsPath | World.py:212-220 | a set holding the origin and closed under spreading holds the end of every light path |
| Lighting.LitSetIsReachableSet | World.py:212-220 | a closed set of reachable cells holding the lightable origin is exactly the reachable set |
| Lighting.ReachableMonotoneInRadius | World.py:210-212 | a larger torch reaches every cell a smaller one reaches |
| Sweeping.FirstIndex | World.py:176 | the place list.remove searches for: it holds x, and no earlier place does |
| Sweeping.RemoveFirst | World.py:176 | list.remove, called only on an element present (the source's remove raises ValueError otherwise), makes the list one shorter and adds nothing |
| Sweeping.RemoveFirstDropsFirst | World.py:176 | remove drops exactly the first occurrence of x and keeps everything else in order |
| Sweeping.RemoveFirstKeeps | World.py:176 | remove loses no element other than x |
| Sweeping.RemoveFirstAt | World.py:176 | in a list without repeats, removing the element at i leaves the others in order |
| Sweeping.RemoveFirstMembers | World.py:176 | in a list without repeats, remove drops exactly the element named and keeps the list free of repeats |
| Sweeping.SweepFromKeeps | World.py:174-177 | SweepFrom, the loop as written, from any position of the iterator, never grows the list, adds nothing and never removes a live element |
| Sweeping.SweepFromIsSwept | World.py:174-177 | on a list without repeats, the iterator loop with removal computes the reference definition Swept |
| Sweeping.SweepDeadStep | World.py:174-176 | the loop step that removes the dead element at i agrees with Swept |
| Sweeping.SweepLiveStep | World.py:174-179 | the loop step that keeps the live element at i agrees with Swept |
| Sweeping.SweptDropsDead | World.py:175-176 | a dead element examined by the loop is removed |
| Sweeping.SweptKeepsNext | World.py:174-176 | the element right after a removed one is kept in that pass |
| Sweeping.SweptIsSubsequence | World.py:174-179 | survivors keep their relative order |
| Sweeping.SweptRemovesOnlyDead | World.py:174-179 | a live monster is never removed, nothing is added, and every removed monster is dead |
| Sweeping.DeadAfterRemovedSurvives | World.py:174-176 | of two dead neighbours the first is removed and the second survives the pass |
| Sweeping.CardOfDistinct | World.py:238-239 | a list without repeats has as many elements as members |

## Left out

- Drawing is not modelled. This covers `Tile.draw`, `Monster.draw`, `Avatar.draw`, the
  tile-drawing loop of `World.draw`, the canvas setup and the pixel arithmetic, which are
  all calls into a graphics library.
- Reading and parsing the level file is not modelled: `open`, `readline`, `split`, `int()`
  and `float()`, and the six-token grouping of the monster data. `Worlds.World.Load` takes
  the decoded values and the tile codes in file order. Each monster comes as a
  `MonsterRecord` of its six values.
- Concurrency is not modelled: one thread per monster, the lock and `time.sleep`. Every
  operation runs alone. The monster delay is kept in milliseconds instead of as seconds.
- Randomness: `random.randint` becomes the parameter `direction` of
  `Worlds.World.MonsterTick`. It becomes the sequence `draws` of `Worlds.World.Run`.
- Worlds.World.Run: the loop also ends when the given draws run out. The source loops
  until the monster dies.
- Worlds.World.Run: it states that the loop ends early only with hp at most 0, not that
  every pass before the last left hp positive; that follows from the loop test but a
  per-pass hp history is not part of the contract.
- Worlds.World.Wander: the second hp test before moving (Monster.py:150) is dropped. Run
  sequentially, nothing can change the monster's hp between the loop test and the move.
  The timer's decrement (Monster.py:130-131) is applied after the move, to the value saved
  before it. The move only adds 3 to the timer, so the final timer is the same as in the
  source's order.
- The `print` in `light` is left out. `Worlds.World.Light` returns the count instead.
- The game loop and window handling of Ultima.py, and the test code at the end of each
  file, are not part of this model.
- Getters (`getX`, `getHitPoints`, `getTorchRadius`, `getLit`, …) are field reads.
- Worlds.World.AvatarAlive: it is the source's test `hp > 0` itself, so no contract beyond
  its definition is stated.
- `World.__init__` is split in two. `Worlds.World.Load` does the loading part
  (World.py:34-65). `Worlds.World.Start` does the first lighting and drawing
  (World.py:73-75).
- The grid is a constant sequence of columns of `Tile` objects. The source never rebinds
  its lists after loading; only the tiles' slots change.
- Worlds.World.Reap: it iterates over a local copy of the list and stores the result at
  the end. The source's loop mutates `monsterList` during the same iteration. The removals
  and the resulting list are the same.
- Worlds.World.Load: every monster record must lie inside the grid. For a record outside
  the grid the source raises an index error or, for negative coordinates, writes a tile
  counted from the other end.
- Worlds.World.Load: every monster code must be known (`KnownCodes`). For any other code
  the source raises `AttributeError` at Monster.py:52 and no world is built. The model
  does not describe that failure.
- Worlds.World.Populate: requires `KnownCodes` of its records, for the same reason.
- Worlds.PlaceMonsters: requires `KnownCodes` of its records, for the same reason.
- Worlds.PlaceMonster: requires the record's code to be known, for the same reason.
- Monsters.Monster.constructor: requires a known code, since the source fails at
  Monster.py:52 on any other.
- Worlds.World.LightDFS, Worlds.World.Light and Worlds.World.HandleKey: the recursion depth
  of the flood fill is unbounded in the model. CPython stops at its default recursion
  limit of 1000 frames, so on a large open level with a wide torch the source can raise
  `RecursionError` where the model lights the whole reachable set.
- Worlds.World.MonsterMove and Worlds.World.MonsterTick: the moving monster must stand
  inside the grid. Every listed monster does, under the invariant `Positioned`.
- The square root is replaced by the exact squared test, and reals are exact. Floating-point
  rounding is not modelled.
