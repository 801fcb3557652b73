# rpg_game core in Dafny

A model of the logic core of a small tile-based RPG for a microcontroller board.

- **Chained hash table** (`hash_table.cpp`): a fixed array of buckets, a pluggable hash function, and singly linked chains. Each bucket is modelled as a sequence of key/value entries. The table is refined to an abstract map, and a multiset of values serves as an ownership ledger: every value handed out or freed is accounted for exactly once.
- **Tile map** (`map.cpp`, `map.h`):
  - a 50 × 50 grid stored in a 2500-bucket table;
  - keys are derived by `XY_KEY` and `map_hash`;
  - the five directional getters, the `add_*` mutators, `add_wall`, `map_erase` and `map_remove`;
  - the two-map registry (overworld and ruins) with its active-map selector.
- **Game step** (`main.cpp`):
  - `get_action`, from buttons and tilt to an action code;
  - `next_to`, which finds a tile of a kind around the player;
  - the NPC's random walk and its dialogue state machine;
  - `update_game`: save the previous position, run the NPC's walk phase, move the player gated by walkability, then the action button's chain of interactions and the omnipotent toggle.

Modules, one per file:

- `Wrappers`: `Option`, `Result`.
- `Chains`: one bucket chain.
- `HashTable`.
- `TileMap`.
- `Registry`: the two maps and the selector.
- `Actions`: `get_action`.
- `Npc`: the walk and the dialogue.
- `Nearby`: `next_to`.
- `Game`: `update_game`.

Pointers are modelled as values:
- A `MapItem`'s `draw` function pointer is an enumeration.
- Its `data` pointer is a `Payload`: either null, or a reference to the shared dialogue state or to a constant.
- An in-place field update of a tile found in the table is modelled as storing the updated record under the same key.

The random draws of the NPC's walk are an input sequence.

Where the code and its documentation differ, the model follows the code, except for the three defects listed under Findings. For those, both the code as written and the intended behaviour are modelled, and the game step uses the intended one:

- `next_to` is searched with NULL-guarded queries (`Nearby.NextTo`), as its documentation says.
- The NPC's walk moves west on "move left" and ends on a "stay" draw (`Npc.Walk`).

Elsewhere:

- The directional getters check only the edge they move towards. `get_north` at `x = 50` therefore reads the first cell of the same row (`TileMap.NorthOfOffMapColumn`).
- The mutators store under `XY_KEY`, without bounds checks or `map_hash`, while lookups and `map_erase` go through `map_hash(XY_KEY)`. On the grid the two agree (`TileMap.KeyAgreement`).
- `set_active_map` with a number other than 0 or 1 stores it and answers no map. `get_active_map` then falls back to the overworld.
- Talking to the NPC in state GO while holding the key runs GO → FOUND → END in one press, because the source's tests form a chain of `if`s.
- `next_to` ignores its `x` and `y` parameters and always looks around the player.
- Its erase pass re-tests the same cells in the same order, so it erases exactly the cell it found. The model erases that cell.
- `map.cpp` defines `add_NPC` and `add_stairs` with a value argument (`add_NPC` keeps it in a function-local `static`, fixed at the first call). `add_stairs` stores a `Map*` that `update_game` later reads as an `int`. `map.h` declares both with a pointer argument. The model follows the header: the payload is a borrowed reference to an integer.
- `map_remove` is declared in `map.h` but not defined. It is modelled from its documentation as `removeItem` at the looked-up key.
- `get_map` lacks its closing brace in `map.cpp`. The model follows the evident intent.

## Model

| member | source | states |
|---|---|---|
| Chains.IndexOf | hash_table.cpp:157-178 | the scan finds the first entry with the key: its index holds the key, no earlier entry does, and there is no answer exactly when no entry has the key |
| Chains.Find | hash_table.cpp:261-266 | a value is answered exactly when the chain holds the key, it is that entry's value, and with distinct keys it is the value of any entry with the key |
| Chains.Unlink | hash_table.cpp:268-302 | unlinking never grows the chain and hands back a value exactly when the key was present |
| Chains.UnlinkSplices | hash_table.cpp:277-298 | unlinking cuts out exactly the first entry with the key, whether it is the head or an interior entry, and returns its value; without the key the chain is unchanged |
| Chains.FindPrepend | hash_table.cpp:253-255 | after prepending an entry, a lookup of its key finds the new value and every other key reads as before |
| Chains.FindReplace | hash_table.cpp:240-245 | overwriting the value of an entry in place keeps the keys distinct and changes the lookup of that key only |
| Chains.FindSplice | hash_table.cpp:280-296 | cutting one entry out keeps the keys distinct, makes its key absent and leaves every other key's lookup unchanged |
| HashTable.KeyInItsBucket | hash_table.cpp:157-160 | a key is in the table exactly when the bucket its hash selects holds it, so a lookup needs to scan that bucket only |
| HashTable.Create | hash_table.cpp:188-212 | zero buckets is an error; otherwise the table is valid, has the given hash and bucket count, and holds nothing |
| HashTable.Get | hash_table.cpp:261-266 | a value is answered exactly when the key is in the table, and it is the value of the entry for that key in the bucket `hash(key)` |
| HashTable.GetIsContents | hash_table.cpp:261-266 | `getItem` reads the abstract map: the key's value if present, NULL otherwise |
| HashTable.Insert | hash_table.cpp:238-259 | the table stays valid; the abstract map gains or overwrites the key; the previous value is handed back exactly when the key was present; values in plus out balance |
| HashTable.InsertShape | hash_table.cpp:238-259 | other buckets are untouched; an absent key's entry becomes the head of bucket `hash(key)`; a present key keeps the bucket's length and key order |
| HashTable.InsertThenGet | hash_table.cpp:238-266 | after inserting `(k, v)`, looking up `k` answers `v` |
| HashTable.InsertTwiceReplaces | hash_table.cpp:240-245 | inserting a present key hands back the old value, installs the new one and adds no entry |
| HashTable.SharedBucketOrder | hash_table.cpp:252-255 | two new keys with the same hash sit at the head of their bucket with the later insertion first |
| HashTable.Remove | hash_table.cpp:268-302 | the table stays valid; the key leaves the abstract map; its value is handed back, or nothing when it was absent; an absent key leaves the table unchanged; other buckets are untouched; the ledger balances |
| HashTable.UnlinkFromBucket | hash_table.cpp:268-302 | unlinking a key from its bucket keeps the table valid, removes exactly that key from the abstract map and hands back its value |
| HashTable.InsertThenRemove | hash_table.cpp:238-302 | removing a just-inserted key hands back the inserted value and leaves the map without the key, and every other key as before the insertion |
| HashTable.Delete | hash_table.cpp:304-340 | like remove, but the value is freed: the freed list is the key's value or empty, and an absent key leaves the table unchanged |
| HashTable.KeysUnique | hash_table.cpp:238-259 | no two entries anywhere in the table share a key |
| HashTable.Destroy | hash_table.cpp:214-236 | every entry is released exactly once: as many entries as keys, distinct keys, each with its stored value, and the released values are exactly the table's values |
| HashTable.EntriesCount | hash_table.cpp:214-236 | the entries across all buckets are as many as the keys of the abstract map |
| TileMap.Tag | map.h:56-62 | each tile kind has a tag between 0 and 6 |
| TileMap.KindOfTag | map.h:56-62 | exactly the integers 0..6 name a kind, and a kind's tag names it back |
| TileMap.TagsDistinct | map.h:56-62 | the seven tags are distinct and decoding a kind's tag gives the kind back |
| TileMap.XyKey | map.cpp:33-38 | the key is an unsigned 32-bit value, and below 2500 for on-map cells |
| TileMap.MapHash | map.cpp:45-49 | the hash is below 2500 and is the identity on keys below 2500 |
| TileMap.KeyAgreement | map.cpp:45-49 | on the map the key is `y*50+x` and the lookup key `map_hash(XY_KEY)` equals the insertion key `XY_KEY` |
| TileMap.XyKeyInjective | map.cpp:33-38 | two on-map cells share a key exactly when they are the same cell |
| TileMap.XyKeyOnto | map.cpp:33-38 | every key below 2500 is the key of the on-map cell `(k % 50, k / 50)` |
| TileMap.XyKeyRowWrap | map.cpp:33-38 | column 50 of a row has the same key as column 0 of the next row |
| TileMap.GetNorth | map.cpp:124-130 | NULL when `y <= 0`; otherwise, for an on-map target, the tile of the cell above |
| TileMap.GetSouth | map.cpp:132-138 | NULL when `y >= h-1`; otherwise, for an on-map target, the tile of the cell below |
| TileMap.GetEast | map.cpp:140-146 | NULL when `x >= w-1`; otherwise, for an on-map target, the tile of the cell to the right |
| TileMap.GetWest | map.cpp:148-154 | NULL when `x <= 0`; otherwise, for an on-map target, the tile of the cell to the left |
| TileMap.GetHere | map.cpp:156-163 | NULL off the map, the cell's tile on it |
| TileMap.NorthOfOffMapColumn | map.cpp:124-130 | `get_north` checks only the top edge, so from `(x + 50, y)` it reads the tile at `(x, y)` in the same row, because `XY_KEY(x + 50, y - 1) == XY_KEY(x, y)` |
| TileMap.Store | map.cpp:186-195 | storing a tile keeps the map valid, sets the key's tile, frees exactly the displaced tile if there was one, and balances the ledger |
| TileMap.Place | map.cpp:186-195 | a tile added at a cell lands under `XY_KEY(x, y)` and frees whatever it displaced |
| TileMap.PlaceThenHere | map.cpp:186-195 | after adding at an on-map cell, `get_here` there answers the new tile and every other on-map cell is unchanged |
| TileMap.AddPlant | map.cpp:186-195 | adds a walkable plant without payload |
| TileMap.AddNpc | map.cpp:197-207 | adds a non-walkable NPC carrying the given payload |
| TileMap.AddKey | map.cpp:209-218 | adds a walkable key without payload |
| TileMap.AddDoor | map.cpp:220-229 | adds a door that is walkable and drawn as nothing exactly when `open` is nonzero, and is otherwise closed |
| TileMap.AddStairs | map.cpp:231-240 | adds walkable stairs carrying the destination payload |
| TileMap.AddWinItem | map.cpp:242-251 | adds a walkable win item without payload |
| TileMap.WallLineKeys | map.cpp:171-184 | the wall line covers exactly the keys `XY_KEY(x+i, y)` (horizontal) or `XY_KEY(x, y+i)` (vertical) for `0 <= i < len` |
| TileMap.AddWall | map.cpp:171-184 | the map gains exactly the wall line, non-walkable walls, and keeps every other key; `len <= 0` changes nothing; each displaced tile is freed once |
| TileMap.MapErase | map.cpp:166-169 | the looked-up key leaves the map and its tile is freed; erasing an empty cell changes nothing |
| TileMap.EraseThenHere | map.cpp:166-169 | after erasing an on-map cell, `get_here` there is NULL and every other on-map cell is unchanged |
| TileMap.MapRemove | map.h:143-146 | the key leaves the map, the removed tile is handed back rather than freed, and the ledger balances |
| TileMap.StoreThenHere | map.cpp:156-163 | a tile updated in place at an on-map cell is what `get_here` answers there |
| TileMap.RemoveThenAdd | main.cpp:189-190 | removing a tile from one cell and adding an NPC on another leaves the first cell empty and the NPC on the second |
| TileMap.LookupAt | map.cpp:156-163 | the table lookup at the lookup key of an on-map cell reads that cell of the grid |
| Registry.MapsInit | map.cpp:51-61 | both maps are 50 × 50 and empty, and the selector is as given |
| Registry.GetActiveMap | map.cpp:63-71 | the ruins exactly when the selector is 1; the overworld for anything else |
| Registry.SetActiveMap | map.cpp:73-82 | the selector becomes the argument and no map changes; a map is answered exactly for 0 and 1, and it is the one numbered so |
| Registry.GetMap | map.cpp:84-91 | the ruins exactly for 1; the overworld for anything else |
| Registry.Active | map.cpp:63-71 | the active map of valid maps is a valid map |
| Registry.WithActive | map.cpp:63-71 | writing the active map keeps the selector and the other map, and the written map reads back |
| Registry.MapWidth | map.cpp:109-112 | the width is 50 |
| Registry.MapHeight | map.cpp:114-117 | the height is 50 |
| Registry.MapArea | map.cpp:119-122 | the area is width times height, 2500, the table's bucket count |
| Registry.SelectThenActive | map.cpp:63-82 | after selecting a number, the active map is `get_map` of it, and the overworld when no map was answered |
| Registry.NumberRoundTrip | map.cpp:84-91 | selecting a map by its own number answers and activates that map |
| Registry.AreaCoversKeys | map.cpp:109-122 | the on-map cells' keys are exactly the numbers below the area |
| Actions.Abs | main.cpp:103 | the absolute value is nonnegative and equals the value or its negation |
| Actions.GetAction | main.cpp:93-110 | the action is one of the eight codes: ACTION for `b1` low, else MENU for `b2` low, else OMNI for `b3` low, else NO_ACTION when both tilts are below 200, else the dominant axis and its sign decide the direction, each as an if-and-only-if |
| Actions.MirrorReverses | main.cpp:106-109 | negating a decisive tilt reverses the move: left and right, up and down swap |
| Actions.ButtonPriority | main.cpp:96-101 | with any button pressed, the tilt readings do not matter |
| Npc.Step | main.cpp:150-155 | a move is taken exactly when the neighbour has no tile or a walkable one, and then lands on the neighbour |
| Npc.AttemptAsWritten | main.cpp:145-189 | a "stay" draw ends the loop exactly when the NPC's own cell holds no blocking tile |
| Npc.Attempt | main.cpp:145-189 | a "stay" draw always ends the walk in place; any other ending is on the NPC's cell or a neighbour |
| Npc.AttemptsAgree | main.cpp:145-187 | the code as written treats draw 4 as draw 1; draws 1 to 3 behave as intended |
| Npc.WalkAsWritten | main.cpp:145-189 | the walk as written ends at the first draw that does not retry, or not at all if every draw retries |
| Npc.Walk | main.cpp:145-189 | the intended walk ends at the first draw that does not retry, or not at all if every draw retries |
| Npc.WalkIsSafe | main.cpp:145-189 | the NPC ends on its own cell or on a neighbour whose tile does not block |
| Npc.WalkAsWrittenIsSafe | main.cpp:145-189 | the walk as written ends on the NPC's own cell only when it does not block, never moves west, and otherwise ends on a neighbour above, below or right whose tile does not block |
| Npc.WalksAgree | main.cpp:145-189 | over draws that never mean "move left" or "stay", the walk as written and the intended walk end on the same cell |
| Npc.WalkStopsAtStay | main.cpp:182-187 | a "stay" draw ends the intended walk, in place if every earlier draw retried |
| Npc.LeftMovesUp | main.cpp:174-179 | with free cells above and to the left, draw 4 moves the NPC up as written but left as intended |
| Npc.BoxedInSpinsForever | main.cpp:182-189 | as written, an NPC with blocked cells above, below and right never leaves the loop, whatever the draws |
| Npc.BoxedInRetriesAsWritten | main.cpp:145-189 | as written, every draw retries for such an NPC |
| Npc.BoxedInStays | main.cpp:145-189 | with all four neighbours blocked, the intended walk stays put exactly when some draw is a "stay", and runs out otherwise |
| Npc.BoxedInSkips | main.cpp:145-189 | with all four neighbours blocked, a move draw is skipped |
| Npc.StayInTail | main.cpp:145-189 | skipping a move draw leaves the question of whether a "stay" draw follows unchanged |
| Npc.Deref | main.cpp:335 | reading a payload fails exactly when it is null; a reference to the dialogue state reads its current value, and a reference to a constant reads that constant |
| Npc.Talk | main.cpp:227-297 | each dialogue transition: START to GO, GO stays without the key and goes to END with it, FOUND to END, END stays, and others get the confused lines; a null payload changes nothing |
| Npc.TalkProgresses | main.cpp:227-297 | from START..END the dialogue only moves forward, stays within START..END, and stands still only at END or at GO without the key |
| Npc.DialogueScript | main.cpp:227-297 | START, then GO with the key, ends the dialogue at END, where it stays |
| Nearby.Seen | map.cpp:156-163 | what `get_here` answers: the grid's tile on the map, nothing off it |
| Nearby.Cells | main.cpp:47-63 | four cells are searched, five when `on` |
| Nearby.CellsAreNear | main.cpp:47-63 | the searched cells are exactly the four neighbours, plus the player's own cell when `on` |
| Nearby.Looks | main.cpp:47-51 | each searched cell pairs the getter's answer with the cell it reads |
| Nearby.QuerySeesGrid | main.cpp:47-51 | from an on-map player, every getter answers the grid's tile of its cell |
| Nearby.LooksSeeGrid | main.cpp:47-51 | every searched tile is the grid's tile at its cell |
| Nearby.FirstMatch | main.cpp:54-63 | nothing is found exactly when no tile has the kind; otherwise the first such tile in search order |
| Nearby.NextTo | main.cpp:45-79 | what is found has the kind sought and lies in a searched cell |
| Nearby.NextToFinds | main.cpp:45-79 | from an on-map player, nothing is found exactly when no neighbour (or own cell when `on`) holds the kind; otherwise the found tile is the grid's tile at a searched cell |
| Nearby.ScanAsWritten | main.cpp:54-63 | the unguarded scan agrees with the guarded one when it does not fault, never faults when every cell holds a tile, and faults when the first cell is empty |
| Nearby.NextToAsWritten | main.cpp:45-79 | whenever the unguarded search does not fault, it answers what the guarded search answers |
| Nearby.EmptyNorthFaults | main.cpp:47-54 | as written, an empty cell above the player dereferences NULL, while the guarded search skips it |
| Nearby.FullSurroundingsAgree | main.cpp:45-79 | with every searched cell occupied, the search as written answers what the guarded search answers |
| Game.Destination | main.cpp:145-189 | the NPC settles on its own cell or a neighbour, by the intended walk |
| Game.NpcPhase | main.cpp:136-195 | every nonzero action counts; the walk runs exactly when the count reaches 5 on the overworld, then resets the count and asks for a full redraw, moving the NPC at most one cell; otherwise only the count changes |
| Game.NpcWalks | main.cpp:189-190 | after the walk the NPC's tile, pointing at the dialogue state, is on its new cell, and its old cell is empty if it moved |
| Game.NpcWalksSafely | main.cpp:145-189 | the NPC never walks onto a blocking tile |
| Game.NpcPhaseMatchesSource | main.cpp:145-190 | over draws that never mean "move left" or "stay", the NPC settles exactly where the loop as written ends |
| Game.Move | main.cpp:201-224 | a move changes only the position, by at most one step towards the target, and always takes the step in omnipotent mode |
| Game.MoveRespectsTiles | main.cpp:201-224 | outside omnipotent mode, the player steps onto an on-map target exactly when it holds no tile or a walkable one |
| Game.MovesAvoidWalls | main.cpp:201-224 | outside omnipotent mode, a frame's move never ends on a blocking tile |
| Game.TalkTo | main.cpp:227-297 | talking keeps the maps valid and changes neither the player, the NPC's position nor the walk counter |
| Game.TalkToEffect | main.cpp:227-297 | after talking, the dialogue state is the conversation's and the NPC's cell carries the updated payload |
| Game.TakeKey | main.cpp:299-312 | taking the key gives it to the player and changes nothing else about the player |
| Game.TakeKeyEffect | main.cpp:299-312 | the key's cell is empty afterwards |
| Game.OpenDoor | main.cpp:314-322 | opening keeps the maps valid and leaves the player, NPC, counter and dialogue alone |
| Game.OpenDoorEffect | main.cpp:314-322 | the door's cell holds the same door, now walkable and drawn open |
| Game.EntryPoint | main.cpp:337-346 | map 1 enters at (7, 28), map 0 at (22, 26), anything else at (25, 25) |
| Game.TakeStairs | main.cpp:331-348 | the stairs fault exactly on a null payload; otherwise neither map changes and only the player's position moves |
| Game.TakeStairsEffect | main.cpp:331-348 | stairs to map `n` make `get_map(n)` active and put the player on its entry cell |
| Game.Act | main.cpp:225-349 | the action button keeps the maps valid, returns FULL_DRAW, GAME_OVER_WIN or falls through unchanged, never drops the key, and faults only on stairs with a null payload |
| Game.ActTalks | main.cpp:227-297 | with an NPC beside the player, the button talks to it: FULL_DRAW, the conversation's dialogue state, and the NPC's updated payload on its cell |
| Game.ActTakesKey | main.cpp:299-312 | with no NPC beside the player and a key around them, the button takes it: FULL_DRAW, the player holds the key and its cell is empty |
| Game.ActOpensDoor | main.cpp:314-322 | holding the key, with no NPC and no key around, the button opens an adjacent door: it becomes walkable and is drawn open |
| Game.DoorNeedsKey | main.cpp:314-322 | without the key, and with no NPC and no key around, the button changes no tile of either map |
| Game.WinNeedsItem | main.cpp:324-329 | the game is won only when no earlier interaction applies and a win item lies on or beside the player |
| Game.ItemWins | main.cpp:324-329 | when no earlier interaction applies, a win item on or beside the player wins the game |
| Game.Respond | main.cpp:199-362 | after the NPC phase: the maps stay valid, the previous position and the NPC are kept, the code is NO_RESULT, GAME_OVER_WIN or FULL_DRAW, NO_RESULT means nothing on the maps changed, and only the action button can win or fault |
| Game.UpdateGame | main.cpp:125-363 | a frame saves the position as the previous one, keeps the maps valid, never reports a loss, never drops the key, and wins or faults only on the action button |
| Game.CounterStaysBelowPeriod | main.cpp:136-195 | on the overworld the walk counter stays between 0 and 4 from frame to frame |
| Game.NoResultKeepsWorld | main.cpp:360-362 | a frame that ends with NO_RESULT changed neither map, the NPC nor the dialogue |
| Game.OmniToggles | main.cpp:353-356 | the omnipotent button flips the mode and keeps the player's position and key |

## Left out

- Drawing and I/O are not modelled: `draw_game`, `print_map`, the speech boxes, all console printing, timers, input reading and the main loop. The lines an NPC speaks are a tag (`Npc.Speech`).
- `rand()` is not modelled. The NPC's walk takes its draws as an input sequence.
- `Game.Destination`: the game step walks the NPC with the intended walk, `Npc.Walk`, not the loop as written (Findings rows main.cpp:174-179 and main.cpp:182-189). As written, draw 4 moves the NPC up, and a "stay" draw draws again, because the NPC's own tile blocks. `Game.NpcPhaseMatchesSource` states where the two agree.
- `Game.Destination`: when the finite draws run out while every draw retried, the NPC stays where it is. The source would keep drawing, possibly forever (see Findings).
- `Game.NpcWalksSafely`: stated for the intended walk that the game step runs. For the loop as written, the same safety is stated by `Npc.WalkAsWrittenIsSafe`, which also shows that it never moves west.
- `Game.Act`: it searches with the NULL-guarded `Nearby.NextTo`. The source dereferences NULL instead when a searched cell is empty (Findings row main.cpp:54-62). `Nearby.NextToAsWritten` states that whenever the code as written does not fault, it answers the same.
- `add_maze` and `remove_maze` are not part of this model: `map.h` declares them, but their definitions and their pattern format are not among the files modelled. Taking the key in the ruins therefore does not swap the mazes in `Game.TakeKey`.
- Memory allocation is modelled as total. `free` is modelled by the freed lists and the value ledgers, not by a heap. `exit(1)` in `createHashTable` is modelled as `Failure(ZeroBuckets)`.
- The hash function of a table is any function into the bucket range. Only the map's `map_hash` is concrete.
- `XY_KEY` wraps negative coordinates modulo 2^32, as unsigned arithmetic does. Key arithmetic beyond that is unbounded.
- `Game.NpcWalks`: stated only when both the old and the new cell are on the map. Off-map cells are not addressable through `get_here`.
- `Game.TakeStairs`: a null payload dereference is undefined behaviour in the source. The model reports it as `Failure(NullDereference)`.
- The tile `map_remove` hands back during the NPC's walk is dropped, as `update_game` drops it (the source leaks it).
- The shared dialogue state `state` is global in the source. It is a field of `Game.State` here, and NPC payloads refer to it symbolically.

## Findings

| source | as written | input that shows it | evidently intended | confidence | as-written member | corrected member |
|---|---|---|---|---|---|---|
| main.cpp:54-62 | `next_to` reads `up->type`, `left->type`, `right->type` and `down->type` without checking for NULL | a player with no tile in the cell above, e.g. in an open field | skip empty cells, as "if no tile exists, return null" says | high, not executed | Nearby.EmptyNorthFaults | Nearby.NextToFinds |
| main.cpp:174-179 | the "move left" case reads `get_north` and decrements `y` | draw 4 with free cells above and to the left: the NPC moves up | read `get_west` and decrement `x` | high, not executed | Npc.LeftMovesUp | Npc.Attempt |
| main.cpp:182-189 | "stay still" reads `get_here` of the NPC's own cell, which holds the non-walkable NPC tile, so the loop goes on | an NPC blocked above, below and to the right: no draw ever ends the loop | staying still ends the loop | medium, not executed | Npc.BoxedInSpinsForever | Npc.WalkStopsAtStay |
