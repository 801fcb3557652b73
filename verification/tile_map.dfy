/**
 * The coordinate-addressed tile map: a hash table of tiles keyed by the
 * row-major linear key of a cell, with bounds-checked directional queries and
 * typed tile mutators.  The C functions act on the active map; here the map
 * is an explicit argument (the registry supplies the active one).
 */
module TileMap {
  import opened Wrappers
  import HashTable

  const MAP_WIDTH: int := 50
  const MAP_HEIGHT: int := 50
  const NUM_TILES: int := MAP_WIDTH * MAP_HEIGHT

  /** A C `unsigned` holds its value modulo 2^32. */
  const UNSIGNED_RANGE: int := 0x1_0000_0000

  /** Directions for `AddWall`; any value other than `HORIZONTAL` draws a vertical line. */
  const HORIZONTAL: int := 0
  const VERTICAL: int := 1

  /** The tile types `WALL` .. `WIN_ITEM`. */
  datatype Kind = Wall | Plant | Npc | KeyItem | Door | Stairs | WinItem

  /** The integer each tile type is written as. */
  function Tag(k: Kind): (t: int)
    ensures 0 <= t <= 6
  {
    match k
    case Wall => 0
    case Plant => 1
    case Npc => 2
    case KeyItem => 3
    case Door => 4
    case Stairs => 5
    case WinItem => 6
  }

  /** Reads a tile type back from its integer, if it is one. */
  function KindOfTag(t: int): (r: Option<Kind>)
    ensures r.Some? <==> 0 <= t <= 6
    ensures r.Some? ==> Tag(r.value) == t
  {
    if t == 0 then Some(Wall)
    else if t == 1 then Some(Plant)
    else if t == 2 then Some(Npc)
    else if t == 3 then Some(KeyItem)
    else if t == 4 then Some(Door)
    else if t == 5 then Some(Stairs)
    else if t == 6 then Some(WinItem)
    else None
  }

  /** The seven tags are distinct, so comparing tags is comparing types. */
  lemma TagsDistinct(a: Kind, b: Kind)
    ensures Tag(a) == Tag(b) <==> a == b
    ensures KindOfTag(Tag(a)) == Some(a)
  {
  }

  /** The drawing routine a tile refers to (a function pointer in the source). */
  datatype Draw =
    | DrawWall | DrawPlant | DrawNpc | DrawKey | DrawNothing
    | DrawDoor | DrawDoorOpen | DrawStairs | DrawWinItem

  /** What a borrowed payload pointer refers to: the game's dialogue state, or a fixed integer. */
  datatype Referent = DialogueState | Constant(n: int)

  /** A tile's opaque `data` pointer: NULL or a borrowed reference the tile does not own. */
  datatype Payload = Null | Ref(target: Referent)

  /** A `MapItem`: type, drawing routine, walkability and payload. */
  datatype Tile = Tile(kind: Kind, draw: Draw, walkable: bool, data: Payload)

  /** A map: its tile table and its dimensions. */
  datatype Map = Map(items: HashTable.Table<Tile>, w: int, h: int)

  /** A map after a mutation, with the tiles the mutation freed. */
  datatype Placed = Placed(grid: Map, freed: seq<Tile>)

  /** A map after `map_remove`, with the tile handed to the caller. */
  datatype Taken = Taken(grid: Map, tile: Option<Tile>)

  /** `XY_KEY`: the row-major linear key `y * 50 + x`, as a C `unsigned`. */
  function XyKey(x: int, y: int): (k: nat)
    ensures k < UNSIGNED_RANGE
    ensures 0 <= x < MAP_WIDTH && 0 <= y < MAP_HEIGHT ==> k < NUM_TILES
  {
    (y * MAP_WIDTH + x) % UNSIGNED_RANGE
  }

  /** `map_hash`: the bucket of a key in a table of `NUM_TILES` buckets. */
  function MapHash(key: nat): (h: nat)
    ensures h < NUM_TILES
    ensures key < NUM_TILES ==> h == key
  {
    key % NUM_TILES
  }

  /** The key the queries and `map_erase` look up for a cell: `map_hash(XY_KEY(x, y))`. */
  function LookupKey(x: int, y: int): nat
  {
    MapHash(XyKey(x, y))
  }

  /** The cell lies on the map: the test of `get_here`. */
  predicate InBounds(m: Map, x: int, y: int)
  {
    0 <= x < m.w && 0 <= y < m.h
  }

  /** A map as `maps_init` builds it: 50 by 50, over a valid table of 2500 buckets hashed by `map_hash`. */
  ghost predicate ValidMap(m: Map)
  {
    && HashTable.Valid(m.items)
    && |m.items.buckets| == NUM_TILES
    && (forall k: nat :: m.items.hash(k) == MapHash(k))
    && m.w == MAP_WIDTH
    && m.h == MAP_HEIGHT
  }

  /** The abstract grid: the tile stored under the key the mutators use for `(x, y)`. */
  ghost function At(m: Map, x: int, y: int): Option<Tile>
    requires ValidMap(m)
  {
    HashTable.Get(m.items, XyKey(x, y))
  }

  /** The grid read through the table's contents. */
  lemma AtIsContents(m: Map, x: int, y: int)
    requires ValidMap(m)
    ensures At(m, x, y) == var c := HashTable.Contents(m.items);
                           if XyKey(x, y) in c then Some(c[XyKey(x, y)]) else None
  {
    HashTable.GetIsContents(m.items, XyKey(x, y));
  }

  /** The tile a mutation at `(x, y)` displaces, as the list of tiles it frees. */
  ghost function Displaced(m: Map, x: int, y: int): seq<Tile>
    requires ValidMap(m)
  {
    if At(m, x, y).Some? then [At(m, x, y).value] else []
  }

  // ---------------------------------------------------------------------------
  // Keys

  /**
   * For on-map cells the insert-side key `XY_KEY(x, y)` and the lookup-side key
   * `map_hash(XY_KEY(x, y))` coincide, and both are the row-major index.
   */
  lemma KeyAgreement(x: int, y: int)
    requires 0 <= x < MAP_WIDTH && 0 <= y < MAP_HEIGHT
    ensures XyKey(x, y) == y * MAP_WIDTH + x
    ensures LookupKey(x, y) == XyKey(x, y)
  {
  }

  /** `XY_KEY` is injective on the map. */
  lemma XyKeyInjective(x1: int, y1: int, x2: int, y2: int)
    requires 0 <= x1 < MAP_WIDTH && 0 <= y1 < MAP_HEIGHT
    requires 0 <= x2 < MAP_WIDTH && 0 <= y2 < MAP_HEIGHT
    ensures XyKey(x1, y1) == XyKey(x2, y2) <==> x1 == x2 && y1 == y2
  {
    KeyAgreement(x1, y1);
    KeyAgreement(x2, y2);
    if y1 < y2 {
      assert y1 * MAP_WIDTH + x1 < (y1 + 1) * MAP_WIDTH <= y2 * MAP_WIDTH + x2;
    } else if y2 < y1 {
      assert y2 * MAP_WIDTH + x2 < (y2 + 1) * MAP_WIDTH <= y1 * MAP_WIDTH + x1;
    }
  }

  /** Every key below `NUM_TILES` is the key of exactly the cell `(k % 50, k / 50)`. */
  lemma XyKeyOnto(k: int)
    requires 0 <= k < NUM_TILES
    ensures 0 <= k % MAP_WIDTH < MAP_WIDTH && 0 <= k / MAP_WIDTH < MAP_HEIGHT
    ensures XyKey(k % MAP_WIDTH, k / MAP_WIDTH) == k
  {
    KeyAgreement(k % MAP_WIDTH, k / MAP_WIDTH);
  }

  /**
   * The unchecked mutators wrap: the cell one past the right edge of row `y`
   * has the same key as the first cell of row `y + 1`.
   */
  lemma XyKeyRowWrap(y: int)
    requires 0 <= y < MAP_HEIGHT - 1
    ensures XyKey(MAP_WIDTH, y) == XyKey(0, y + 1)
  {
  }

  // ---------------------------------------------------------------------------
  // Queries

  /** `get_north`: no tile when `y <= 0`, otherwise the tile one row up. */
  function GetNorth(m: Map, x: int, y: int): (r: Option<Tile>)
    requires ValidMap(m)
    ensures y <= 0 ==> r == None
    ensures y > 0 && InBounds(m, x, y - 1) ==> r == At(m, x, y - 1)
  {
    if y <= 0 then None
    else
      LookupAt(m, x, y - 1);
      HashTable.Get(m.items, LookupKey(x, y - 1))
  }

  /** `get_south`: no tile when `y >= h - 1`, otherwise the tile one row down. */
  function GetSouth(m: Map, x: int, y: int): (r: Option<Tile>)
    requires ValidMap(m)
    ensures y >= m.h - 1 ==> r == None
    ensures y < m.h - 1 && InBounds(m, x, y + 1) ==> r == At(m, x, y + 1)
  {
    if y >= m.h - 1 then None
    else
      LookupAt(m, x, y + 1);
      HashTable.Get(m.items, LookupKey(x, y + 1))
  }

  /** `get_east`: no tile when `x >= w - 1`, otherwise the tile one column right. */
  function GetEast(m: Map, x: int, y: int): (r: Option<Tile>)
    requires ValidMap(m)
    ensures x >= m.w - 1 ==> r == None
    ensures x < m.w - 1 && InBounds(m, x + 1, y) ==> r == At(m, x + 1, y)
  {
    if x >= m.w - 1 then None
    else
      LookupAt(m, x + 1, y);
      HashTable.Get(m.items, LookupKey(x + 1, y))
  }

  /** `get_west`: no tile when `x <= 0`, otherwise the tile one column left. */
  function GetWest(m: Map, x: int, y: int): (r: Option<Tile>)
    requires ValidMap(m)
    ensures x <= 0 ==> r == None
    ensures x > 0 && InBounds(m, x - 1, y) ==> r == At(m, x - 1, y)
  {
    if x <= 0 then None
    else
      LookupAt(m, x - 1, y);
      HashTable.Get(m.items, LookupKey(x - 1, y))
  }

  /** `get_here`: no tile off the map, otherwise the tile at `(x, y)`. */
  function GetHere(m: Map, x: int, y: int): (r: Option<Tile>)
    requires ValidMap(m)
    ensures !InBounds(m, x, y) ==> r == None
    ensures InBounds(m, x, y) ==> r == At(m, x, y)
  {
    if x > -1 && x < m.w && y > -1 && y < m.h then
      LookupAt(m, x, y);
      HashTable.Get(m.items, LookupKey(x, y))
    else None
  }

  /**
   * The directional queries check only the edge they face: one column past the
   * right edge, `get_north` reads the tile at `(x, y)`, since
   * `XY_KEY(x + 50, y - 1) == XY_KEY(x, y)`.
   */
  lemma NorthOfOffMapColumn(m: Map, x: int, y: int)
    requires ValidMap(m)
    requires 0 <= x < MAP_WIDTH && 0 < y < MAP_HEIGHT
    ensures GetNorth(m, x + MAP_WIDTH, y) == At(m, x, y)
  {
    assert XyKey(x + MAP_WIDTH, y - 1) == XyKey(x, y);
    LookupAt(m, x, y);
  }

  // ---------------------------------------------------------------------------
  // Mutators

  /**
   * The common step of every `add_*`: store `t` under `XY_KEY(x, y)` and free
   * whatever tile was displaced.
   */
  ghost predicate PlacedAt(m: Map, r: Placed, x: int, y: int, t: Tile)
    requires ValidMap(m)
  {
    && ValidMap(r.grid)
    && HashTable.Contents(r.grid.items) == HashTable.Contents(m.items)[XyKey(x, y) := t]
    && r.freed == Displaced(m, x, y)
    && HashTable.Values(r.grid.items) + multiset(r.freed) == HashTable.Values(m.items) + multiset{t}
  }

  /** Stores `t` under `key`, freeing the tile it displaces. */
  function Store(m: Map, key: nat, t: Tile): (r: Placed)
    requires ValidMap(m)
    ensures ValidMap(r.grid)
    ensures HashTable.Contents(r.grid.items) == HashTable.Contents(m.items)[key := t]
    ensures key in HashTable.Contents(m.items) ==> r.freed == [HashTable.Contents(m.items)[key]]
    ensures key !in HashTable.Contents(m.items) ==> r.freed == []
    ensures HashTable.Values(r.grid.items) + multiset(r.freed) == HashTable.Values(m.items) + multiset{t}
  {
    var h := HashTable.Insert(m.items, key, t);
    Placed(m.(items := h.table), ToSeq(h.released))
  }

  function Place(m: Map, x: int, y: int, t: Tile): (r: Placed)
    requires ValidMap(m)
    ensures PlacedAt(m, r, x, y, t)
  {
    Store(m, XyKey(x, y), t)
  }

  /**
   * After any placement at an on-map cell, `get_here` answers the new tile
   * there and every other on-map cell answers as before.
   */
  lemma PlaceThenHere(m: Map, x: int, y: int, t: Tile)
    requires ValidMap(m) && InBounds(m, x, y)
    ensures GetHere(Place(m, x, y, t).grid, x, y) == Some(t)
    ensures forall x', y' :: InBounds(m, x', y') && (x', y') != (x, y) ==>
              GetHere(Place(m, x, y, t).grid, x', y') == GetHere(m, x', y')
  {
    var r := Place(m, x, y, t);
    var c := HashTable.Contents(m.items);
    assert ValidMap(r.grid) && HashTable.Contents(r.grid.items) == c[XyKey(x, y) := t];
    assert GetHere(r.grid, x, y) == Some(t) by {
      AtIsContents(r.grid, x, y);
    }
    forall x', y' | InBounds(m, x', y') && (x', y') != (x, y)
      ensures GetHere(r.grid, x', y') == GetHere(m, x', y')
    {
      XyKeyInjective(x, y, x', y');
      AtIsContents(r.grid, x', y');
      AtIsContents(m, x', y');
    }
  }

  /** `add_plant`: a walkable plant. */
  function AddPlant(m: Map, x: int, y: int): (r: Placed)
    requires ValidMap(m)
    ensures PlacedAt(m, r, x, y, Tile(Plant, DrawPlant, true, Null))
  {
    Place(m, x, y, Tile(Plant, DrawPlant, true, Null))
  }

  /** `add_NPC`: a blocking NPC whose payload borrows the dialogue state it is given. */
  function AddNpc(m: Map, x: int, y: int, state: Payload): (r: Placed)
    requires ValidMap(m)
    ensures PlacedAt(m, r, x, y, Tile(Npc, DrawNpc, false, state))
  {
    Place(m, x, y, Tile(Npc, DrawNpc, false, state))
  }

  /** `add_key`: a walkable key. */
  function AddKey(m: Map, x: int, y: int): (r: Placed)
    requires ValidMap(m)
    ensures PlacedAt(m, r, x, y, Tile(KeyItem, DrawKey, true, Null))
  {
    Place(m, x, y, Tile(KeyItem, DrawKey, true, Null))
  }

  /** `add_door`: walkable and drawn as nothing exactly when `open` is nonzero. */
  function AddDoor(m: Map, x: int, y: int, open: int): (r: Placed)
    requires ValidMap(m)
    ensures open != 0 ==> PlacedAt(m, r, x, y, Tile(Door, DrawNothing, true, Null))
    ensures open == 0 ==> PlacedAt(m, r, x, y, Tile(Door, DrawDoor, false, Null))
  {
    Place(m, x, y, Tile(Door, if open != 0 then DrawNothing else DrawDoor, open != 0, Null))
  }

  /** `add_stairs`: walkable stairs whose payload borrows the destination map number. */
  function AddStairs(m: Map, x: int, y: int, destination: Payload): (r: Placed)
    requires ValidMap(m)
    ensures PlacedAt(m, r, x, y, Tile(Stairs, DrawStairs, true, destination))
  {
    Place(m, x, y, Tile(Stairs, DrawStairs, true, destination))
  }

  /** `add_win_item`: the walkable win item. */
  function AddWinItem(m: Map, x: int, y: int): (r: Placed)
    requires ValidMap(m)
    ensures PlacedAt(m, r, x, y, Tile(WinItem, DrawWinItem, true, Null))
  {
    Place(m, x, y, Tile(WinItem, DrawWinItem, true, Null))
  }

  /** The wall record `add_wall` allocates for each cell. */
  function WallTile(): Tile
  {
    Tile(Wall, DrawWall, false, Null)
  }

  /** The key of the `i`-th cell of a wall line: `x` grows for `HORIZONTAL`, `y` otherwise. */
  function LineKey(x: int, y: int, dir: int, i: int): nat
  {
    if dir == HORIZONTAL then XyKey(x + i, y) else XyKey(x, y + i)
  }

  /** A wall on the key of each of the first `n` cells of a line, placed in order. */
  ghost function WallLine(x: int, y: int, dir: int, n: int): map<nat, Tile>
    decreases n
  {
    if n <= 0 then map[] else WallLine(x, y, dir, n - 1)[LineKey(x, y, dir, n - 1) := WallTile()]
  }

  /** The line map holds a wall on exactly the keys of the first `n` cells. */
  lemma {:induction false} WallLineKeys(x: int, y: int, dir: int, n: int)
    ensures forall j :: 0 <= j < n ==> LineKey(x, y, dir, j) in WallLine(x, y, dir, n)
    ensures forall k :: k in WallLine(x, y, dir, n) ==>
              WallLine(x, y, dir, n)[k] == WallTile() && exists j :: 0 <= j < n && LineKey(x, y, dir, j) == k
    decreases n
  {
    if n > 0 {
      WallLineKeys(x, y, dir, n - 1);
    }
  }

  /**
   * `add_wall`: places `len` wall tiles from `(x, y)` along one axis (none
   * when `len <= 0`), freeing each tile a wall displaces; nothing off the line
   * changes.
   */
  method AddWall(m: Map, x: int, y: int, dir: int, len: int) returns (r: Placed)
    requires ValidMap(m)
    ensures ValidMap(r.grid)
    ensures HashTable.Contents(r.grid.items) == HashTable.Contents(m.items) + WallLine(x, y, dir, len)
    ensures forall i :: 0 <= i < len ==>
              (LineKey(x, y, dir, i) in HashTable.Contents(r.grid.items) &&
               HashTable.Contents(r.grid.items)[LineKey(x, y, dir, i)] == WallTile())
    ensures HashTable.Values(r.grid.items) + multiset(r.freed)
            == HashTable.Values(m.items) + multiset{}[WallTile() := if len < 0 then 0 else len]
  {
    r := Placed(m, []);
    var i := 0;
    WallStart(m, x, y, dir);
    while i < len
      invariant 0 <= i <= (if len < 0 then 0 else len)
      invariant WallProgress(m, r, x, y, dir, i)
    {
      var key := LineKey(x, y, dir, i);
      var step := Store(r.grid, key, WallTile());
      WallStep(m, r, step, x, y, dir, i);
      r := Placed(step.grid, r.freed + step.freed);
      i := i + 1;
    }
    WallDone(m, r, x, y, dir, len, i);
  }

  /** After `i` iterations of `add_wall`: the first `i` line cells hold walls and the ledger balances. */
  ghost predicate WallProgress(m: Map, acc: Placed, x: int, y: int, dir: int, i: nat)
  {
    && ValidMap(m)
    && ValidMap(acc.grid)
    && HashTable.Contents(acc.grid.items) == HashTable.Contents(m.items) + WallLine(x, y, dir, i)
    && HashTable.Values(acc.grid.items) + multiset(acc.freed) == HashTable.Values(m.items) + multiset{}[WallTile() := i]
  }

  /** Before the first iteration of `add_wall` nothing is placed and nothing freed. */
  lemma WallStart(m: Map, x: int, y: int, dir: int)
    requires ValidMap(m)
    ensures WallProgress(m, Placed(m, []), x, y, dir, 0)
  {
    assert WallLine(x, y, dir, 0) == map[];
    assert HashTable.Contents(m.items) + map[] == HashTable.Contents(m.items);
    assert multiset{}[WallTile() := 0] == multiset{};
  }

  /** One iteration of `add_wall` extends both the line map and the ledger by one wall. */
  lemma WallStep(m: Map, acc: Placed, step: Placed, x: int, y: int, dir: int, i: nat)
    requires WallProgress(m, acc, x, y, dir, i)
    requires step == Store(acc.grid, LineKey(x, y, dir, i), WallTile())
    ensures WallProgress(m, Placed(step.grid, acc.freed + step.freed), x, y, dir, i + 1)
  {
    UnionUpdate(HashTable.Contents(m.items), WallLine(x, y, dir, i), LineKey(x, y, dir, i), WallTile());
    WallLedgerStep(HashTable.Values(m.items), HashTable.Values(acc.grid.items), HashTable.Values(step.grid.items),
                   acc.freed, step.freed, i);
  }

  /** Updating a union at a key is updating its right operand there. */
  lemma UnionUpdate<K, V>(a: map<K, V>, b: map<K, V>, k: K, v: V)
    ensures (a + b)[k := v] == a + b[k := v]
  {
  }

  lemma WallLedgerStep(start: multiset<Tile>, before: multiset<Tile>, after: multiset<Tile>,
                       freed: seq<Tile>, more: seq<Tile>, i: nat)
    requires before + multiset(freed) == start + multiset{}[WallTile() := i]
    requires after + multiset(more) == before + multiset{WallTile()}
    ensures after + multiset(freed + more) == start + multiset{}[WallTile() := i + 1]
  {
    var walls := multiset{}[WallTile() := i];
    assert multiset{}[WallTile() := i + 1] == walls + multiset{WallTile()};
    calc {
      after + multiset(freed + more);
      after + (multiset(freed) + multiset(more));
      (after + multiset(more)) + multiset(freed);
      (before + multiset{WallTile()}) + multiset(freed);
      (before + multiset(freed)) + multiset{WallTile()};
      (start + walls) + multiset{WallTile()};
      start + (walls + multiset{WallTile()});
    }
  }

  /** When the loop of `add_wall` stops, the line map and the ledger cover all `len` cells. */
  lemma WallDone(m: Map, acc: Placed, x: int, y: int, dir: int, len: int, i: nat)
    requires WallProgress(m, acc, x, y, dir, i)
    requires i == if len < 0 then 0 else len
    ensures ValidMap(acc.grid)
    ensures HashTable.Contents(acc.grid.items) == HashTable.Contents(m.items) + WallLine(x, y, dir, len)
    ensures forall i :: 0 <= i < len ==>
              (LineKey(x, y, dir, i) in HashTable.Contents(acc.grid.items) &&
               HashTable.Contents(acc.grid.items)[LineKey(x, y, dir, i)] == WallTile())
    ensures HashTable.Values(acc.grid.items) + multiset(acc.freed)
            == HashTable.Values(m.items) + multiset{}[WallTile() := if len < 0 then 0 else len]
  {
    WallLineKeys(x, y, dir, len);
  }

  /**
   * `map_erase`: deletes (and frees) the tile under the lookup key of `(x, y)`;
   * a cell with no tile is left alone.
   */
  function MapErase(m: Map, x: int, y: int): (r: Placed)
    requires ValidMap(m)
    ensures ValidMap(r.grid)
    ensures HashTable.Contents(r.grid.items) == HashTable.Contents(m.items) - {LookupKey(x, y)}
    ensures InBounds(m, x, y) ==> r.freed == Displaced(m, x, y)
    ensures LookupKey(x, y) !in HashTable.Contents(m.items) ==> r.grid == m && r.freed == []
    ensures HashTable.Values(r.grid.items) + multiset(r.freed) == HashTable.Values(m.items)
  {
    var d := HashTable.Delete(m.items, LookupKey(x, y));
    Placed(m.(items := d.table), d.freed)
  }

  /** After erasing an on-map cell it is empty and every other on-map cell is unchanged. */
  lemma EraseThenHere(m: Map, x: int, y: int)
    requires ValidMap(m) && InBounds(m, x, y)
    ensures GetHere(MapErase(m, x, y).grid, x, y) == None
    ensures forall x', y' :: InBounds(m, x', y') && (x', y') != (x, y) ==>
              GetHere(MapErase(m, x, y).grid, x', y') == GetHere(m, x', y')
  {
    KeyAgreement(x, y);
    forall x', y' | InBounds(m, x', y') && (x', y') != (x, y)
      ensures GetHere(MapErase(m, x, y).grid, x', y') == GetHere(m, x', y')
    {
      XyKeyInjective(x, y, x', y');
    }
  }

  /**
   * `map_remove` (declared, documented, not defined in the source): unlinks the
   * tile under the lookup key of `(x, y)` and hands it to the caller unfreed.
   */
  function MapRemove(m: Map, x: int, y: int): (r: Taken)
    requires ValidMap(m)
    ensures ValidMap(r.grid)
    ensures HashTable.Contents(r.grid.items) == HashTable.Contents(m.items) - {LookupKey(x, y)}
    ensures InBounds(m, x, y) ==> r.tile == At(m, x, y)
    ensures HashTable.Values(r.grid.items) + Bag(r.tile) == HashTable.Values(m.items)
  {
    var h := HashTable.Remove(m.items, LookupKey(x, y));
    Taken(m.(items := h.table), h.released)
  }

  /**
   * An in-place update of the tile found at an on-map cell, modelled as storing
   * the updated record under the key it was found by: `get_here` then answers
   * the new record there.
   */
  lemma StoreThenHere(m: Map, x: int, y: int, t: Tile)
    requires ValidMap(m) && InBounds(m, x, y)
    ensures GetHere(Store(m, LookupKey(x, y), t).grid, x, y) == Some(t)
  {
    KeyAgreement(x, y);
    AtIsContents(Store(m, LookupKey(x, y), t).grid, x, y);
  }

  /**
   * Taking the tile off one on-map cell with `map_remove` and adding an NPC on
   * another leaves the first cell empty and the NPC on the second; taking it
   * off and putting it back on the same cell leaves the NPC there.
   */
  lemma RemoveThenAdd(m: Map, from: (int, int), to: (int, int), data: Payload)
    requires ValidMap(m) && InBounds(m, from.0, from.1) && InBounds(m, to.0, to.1)
    ensures var r := AddNpc(MapRemove(m, from.0, from.1).grid, to.0, to.1, data).grid;
            && GetHere(r, to.0, to.1) == Some(Tile(Npc, DrawNpc, false, data))
            && (from != to ==> GetHere(r, from.0, from.1) == None)
  {
    var removed := MapRemove(m, from.0, from.1).grid;
    var r := AddNpc(removed, to.0, to.1, data).grid;
    KeyAgreement(from.0, from.1);
    KeyAgreement(to.0, to.1);
    AtIsContents(r, to.0, to.1);
    if from != to {
      XyKeyInjective(from.0, from.1, to.0, to.1);
      AtIsContents(r, from.0, from.1);
    }
  }

  /** Lookup through the lookup key reads the abstract grid at an on-map cell. */
  lemma LookupAt(m: Map, x: int, y: int)
    requires ValidMap(m)
    ensures 0 <= x < MAP_WIDTH && 0 <= y < MAP_HEIGHT ==> HashTable.Get(m.items, LookupKey(x, y)) == At(m, x, y)
  {
    HashTable.GetIsContents(m.items, LookupKey(x, y));
  }
}
