/**
 * The static storage of the map module: the overworld, the ruins and the
 * active-map selector, with the accessors that pick a map by number.
 */
module Registry {
  import opened Wrappers
  import HashTable
  import opened TileMap

  /** The two maps the game defines: number 0 and number 1. */
  datatype MapId = Overworld | Ruins

  /** Both maps and the raw selector `active_map`, which may hold any integer. */
  datatype Registry = Registry(overworld: Map, ruins: Map, active: int)

  /** `set_active_map`'s new registry together with the map pointer it returns. */
  datatype Selection = Selection(registry: Registry, chosen: Option<MapId>)

  /** Both maps are as `maps_init` builds them. */
  ghost predicate ValidRegistry(reg: Registry)
  {
    ValidMap(reg.overworld) && ValidMap(reg.ruins)
  }

  /** The number a map is selected by. */
  function Number(id: MapId): int
  {
    match id
    case Overworld => 0
    case Ruins => 1
  }

  /** The map a registry holds under an identity. */
  function Lookup(reg: Registry, id: MapId): Map
  {
    match id
    case Overworld => reg.overworld
    case Ruins => reg.ruins
  }

  /** The registry with the map under `id` replaced. */
  function Replace(reg: Registry, id: MapId, m: Map): (r: Registry)
    ensures Lookup(r, id) == m
    ensures forall other :: other != id ==> Lookup(r, other) == Lookup(reg, other)
    ensures r.active == reg.active
  {
    match id
    case Overworld => reg.(overworld := m)
    case Ruins => reg.(ruins := m)
  }

  /**
   * `maps_init`: two empty 50-by-50 maps over fresh tables of 2500 buckets
   * hashed by `map_hash`; the selector is left as it was (0 at program start).
   */
  function MapsInit(active: int): (r: Registry)
    ensures ValidRegistry(r)
    ensures forall id :: HashTable.Contents(Lookup(r, id).items) == map[]
    ensures forall id :: HashTable.Values(Lookup(r, id).items) == multiset{}
    ensures forall id :: Lookup(r, id).w == MAP_WIDTH && Lookup(r, id).h == MAP_HEIGHT
    ensures r.active == active
  {
    var created := HashTable.Create(MapHash, NUM_TILES);
    var t := created.value;
    Registry(Map(t, MAP_WIDTH, MAP_HEIGHT), Map(t, MAP_WIDTH, MAP_HEIGHT), active)
  }

  /** `get_active_map`: the ruins when the selector is 1, the overworld for every other value. */
  function GetActiveMap(reg: Registry): (r: MapId)
    ensures r == Ruins <==> reg.active == 1
  {
    if reg.active == 0 then Overworld
    else if reg.active == 1 then Ruins
    else Overworld
  }

  /**
   * `set_active_map`: stores `m` in the selector unconditionally and returns the
   * selected map, or nothing when `m` names no map.
   */
  function SetActiveMap(reg: Registry, m: int): (r: Selection)
    ensures r.registry.active == m
    ensures r.registry.overworld == reg.overworld && r.registry.ruins == reg.ruins
    ensures r.chosen.Some? <==> m == 0 || m == 1
    ensures r.chosen.Some? ==> Number(r.chosen.value) == m
  {
    var reg' := reg.(active := m);
    if m == 0 then Selection(reg', Some(Overworld))
    else if m == 1 then Selection(reg', Some(Ruins))
    else Selection(reg', None)
  }

  /** `get_map`: the ruins for 1, the overworld for every other number; the selector is untouched. */
  function GetMap(m: int): (r: MapId)
    ensures r == Ruins <==> m == 1
  {
    if m == 0 then Overworld
    else if m == 1 then Ruins
    else Overworld
  }

  /** The active map itself. */
  function Active(reg: Registry): (m: Map)
    ensures ValidRegistry(reg) ==> ValidMap(m)
  {
    Lookup(reg, GetActiveMap(reg))
  }

  /** The registry with the active map replaced. */
  function WithActive(reg: Registry, m: Map): (r: Registry)
    ensures ValidRegistry(reg) && ValidMap(m) ==> ValidRegistry(r)
    ensures Active(r) == m
    ensures GetActiveMap(r) == GetActiveMap(reg)
    ensures Lookup(r, if GetActiveMap(reg) == Overworld then Ruins else Overworld)
            == Lookup(reg, if GetActiveMap(reg) == Overworld then Ruins else Overworld)
  {
    Replace(reg, GetActiveMap(reg), m)
  }

  /** `map_width`: the width of the active map, 50 for either map. */
  function MapWidth(reg: Registry): (w: int)
    requires ValidRegistry(reg)
    ensures w == MAP_WIDTH
  {
    Active(reg).w
  }

  /** `map_height`: the height of the active map, 50 for either map. */
  function MapHeight(reg: Registry): (h: int)
    requires ValidRegistry(reg)
    ensures h == MAP_HEIGHT
  {
    Active(reg).h
  }

  /** `map_area`: the number of cells of the active map, one per bucket. */
  function MapArea(reg: Registry): (a: int)
    requires ValidRegistry(reg)
    ensures a == NUM_TILES == |Active(reg).items.buckets|
  {
    Active(reg).w * Active(reg).h
  }

  /**
   * Selecting map `m` and then asking for the active map gives `get_map(m)`:
   * both fall back to the overworld for a number that names no map, even
   * though `set_active_map` itself then returns nothing.
   */
  lemma SelectThenActive(reg: Registry, m: int)
    ensures GetActiveMap(SetActiveMap(reg, m).registry) == GetMap(m)
    ensures SetActiveMap(reg, m).chosen.None? ==> GetActiveMap(SetActiveMap(reg, m).registry) == Overworld
    ensures SetActiveMap(reg, m).chosen.Some? ==> SetActiveMap(reg, m).chosen.value == GetMap(m)
  {
  }

  /** Map numbers round-trip through `get_map` and `set_active_map`. */
  lemma NumberRoundTrip(reg: Registry, id: MapId)
    ensures GetMap(Number(id)) == id
    ensures SetActiveMap(reg, Number(id)).chosen == Some(id)
    ensures GetActiveMap(SetActiveMap(reg, Number(id)).registry) == id
  {
  }

  /** The on-map cells of the active map are keyed exactly by `0 .. map_area() - 1`. */
  lemma AreaCoversKeys(reg: Registry, x: int, y: int, k: int)
    requires ValidRegistry(reg)
    ensures 0 <= x < MapWidth(reg) && 0 <= y < MapHeight(reg) ==> 0 <= XyKey(x, y) < MapArea(reg)
    ensures 0 <= k < MapArea(reg) ==>
              InBounds(Active(reg), k % MapWidth(reg), k / MapWidth(reg)) &&
              XyKey(k % MapWidth(reg), k / MapWidth(reg)) == k
  {
    if 0 <= k < MapArea(reg) {
      XyKeyOnto(k);
    }
  }
}
