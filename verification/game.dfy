/**
 * One frame of the game loop (`update_game`): the NPC's periodic walk on the
 * overworld, the player's four moves, the action button's chain of
 * interactions (talk, take the key, open the door, take the win item, take
 * the stairs) and the omnipotent-mode toggle.  The speech boxes and the
 * drawing are left out; the random draws of the NPC's walk are an input.
 */
module Game {
  import opened Wrappers
  import opened TileMap
  import opened Registry
  import opened Actions
  import opened Npc
  import opened Nearby

  /** The codes `update_game` hands back to the main loop. */
  const NO_RESULT: int := 0
  const GAME_OVER_WIN: int := 1
  const GAME_OVER_LOSS: int := 2
  const FULL_DRAW: int := 3

  /** The number of counted actions after which the NPC takes a walk. */
  const WALK_PERIOD: int := 5

  /** The player: position, position before the frame, the key, omnipotent mode. */
  datatype Player = Player(x: int, y: int, px: int, py: int, hasKey: bool, omni: bool)

  /**
   * The globals `update_game` works on: the player, the two maps and which is
   * active, the NPC's cell, the walk counter and the shared dialogue state.
   */
  datatype State = State(player: Player, maps: Registry, npc: Pos, walkCounter: int, dialogue: int)

  /** The state after the NPC's phase, and whether that phase asks for a full redraw. */
  datatype Phase = Phase(state: State, fullDraw: bool)

  /** The state after the action button, and the code it returns early with, if any. */
  datatype Reply = Reply(state: State, code: Option<int>)

  /** The state after a frame and the code returned to the main loop. */
  datatype Frame = Frame(state: State, result: int)

  function Here(pl: Player): Pos
  {
    Pos(pl.x, pl.y)
  }

  /** The walk counter after an action: every action except `NO_ACTION` counts. */
  function Counted(counter: int, action: int): int
  {
    if action != NO_ACTION then counter + 1 else counter
  }

  /** The NPC walks in this frame: the counter has reached the period and the overworld is active. */
  predicate WalkDue(s: State, action: int)
  {
    Counted(s.walkCounter, action) >= WALK_PERIOD && GetActiveMap(s.maps) == GetMap(0)
  }

  /**
   * Where the NPC settles: where the intended walk ends (draw 4 moves west and
   * a "stay" draw ends the walk), or where it stands when the draws run out.
   */
  function Destination(m: Map, p: Pos, draws: seq<nat>): (r: Pos)
    requires ValidMap(m)
    ensures r in {p, North(p), South(p), East(p), West(p)}
  {
    match Walk(m, p, draws)
    case Some(q) => q
    case None => p
  }

  /**
   * The NPC's phase of a frame: count the action; when the walk is due, walk
   * the NPC, take its tile off the old cell, add an NPC tile pointing at the
   * dialogue state on the new cell, reset the counter and ask for a full
   * redraw.  The tile `map_remove` hands back is dropped.
   */
  function NpcPhase(s: State, action: int, draws: seq<nat>): (r: Phase)
    requires ValidRegistry(s.maps)
    ensures ValidRegistry(r.state.maps)
    ensures r.state.player == s.player && r.state.dialogue == s.dialogue
    ensures r.fullDraw <==> WalkDue(s, action)
    ensures !r.fullDraw ==> r.state == s.(walkCounter := Counted(s.walkCounter, action))
    ensures r.fullDraw ==> r.state.walkCounter == 0 && r.state.maps.active == s.maps.active
    ensures r.fullDraw ==> r.state.maps.ruins == s.maps.ruins
    ensures r.fullDraw ==> r.state.npc in {s.npc, North(s.npc), South(s.npc), East(s.npc), West(s.npc)}
  {
    var counter := Counted(s.walkCounter, action);
    if counter >= WALK_PERIOD && GetActiveMap(s.maps) == GetMap(0) then
      var m := Active(s.maps);
      var to := Destination(m, s.npc, draws);
      var removed := MapRemove(m, s.npc.x, s.npc.y);
      var added := AddNpc(removed.grid, to.x, to.y, Ref(DialogueState));
      Phase(s.(maps := WithActive(s.maps, added.grid), npc := to, walkCounter := 0), true)
    else
      Phase(s.(walkCounter := counter), false)
  }

  /**
   * After the walk, on the active map, the NPC stands on its new cell and its
   * old cell is empty when it moved, provided both cells are on the map.
   */
  lemma NpcWalks(s: State, action: int, draws: seq<nat>)
    requires ValidRegistry(s.maps) && WalkDue(s, action)
    requires InBounds(Active(s.maps), s.npc.x, s.npc.y)
    requires var to := Destination(Active(s.maps), s.npc, draws); InBounds(Active(s.maps), to.x, to.y)
    ensures var r := NpcPhase(s, action, draws).state;
            && r.npc == Destination(Active(s.maps), s.npc, draws)
            && GetHere(Active(r.maps), r.npc.x, r.npc.y) == Some(Tile(Npc, DrawNpc, false, Ref(DialogueState)))
            && (r.npc != s.npc ==> GetHere(Active(r.maps), s.npc.x, s.npc.y) == None)
  {
    var to := Destination(Active(s.maps), s.npc, draws);
    RemoveThenAdd(Active(s.maps), (s.npc.x, s.npc.y), (to.x, to.y), Ref(DialogueState));
  }

  /** The NPC only settles on a cell it may enter: its own, or a neighbour without a blocking tile. */
  lemma NpcWalksSafely(s: State, action: int, draws: seq<nat>)
    requires ValidRegistry(s.maps) && WalkDue(s, action)
    ensures var m := Active(s.maps);
            var to := NpcPhase(s, action, draws).state.npc;
            || to == s.npc
            || (to == North(s.npc) && !Blocks(GetNorth(m, s.npc.x, s.npc.y)))
            || (to == South(s.npc) && !Blocks(GetSouth(m, s.npc.x, s.npc.y)))
            || (to == East(s.npc) && !Blocks(GetEast(m, s.npc.x, s.npc.y)))
            || (to == West(s.npc) && !Blocks(GetWest(m, s.npc.x, s.npc.y)))
  {
    var m := Active(s.maps);
    if Walk(m, s.npc, draws).Some? {
      WalkIsSafe(m, s.npc, draws);
    }
  }

  /**
   * Where the draws never mean "move left" or "stay", the NPC settles exactly
   * where the loop as written ends, whenever that loop ends.
   */
  lemma NpcPhaseMatchesSource(s: State, action: int, draws: seq<nat>)
    requires ValidRegistry(s.maps) && WalkDue(s, action)
    requires forall k :: 0 <= k < |draws| ==> 1 <= draws[k] % 5 <= 3
    requires WalkAsWritten(Active(s.maps), s.npc, draws).Some?
    ensures NpcPhase(s, action, draws).state.npc == WalkAsWritten(Active(s.maps), s.npc, draws).value
  {
    WalksAgree(Active(s.maps), s.npc, draws);
  }

  /** The move actions. */
  predicate IsMove(action: int)
  {
    action == GO_UP || action == GO_LEFT || action == GO_DOWN || action == GO_RIGHT
  }

  /** The cell a move action heads for. */
  function Target(p: Pos, action: int): Pos
  {
    if action == GO_UP then North(p)
    else if action == GO_LEFT then West(p)
    else if action == GO_DOWN then South(p)
    else East(p)
  }

  /** The tile the getter for a move action answers. */
  function Ahead(m: Map, p: Pos, action: int): Option<Tile>
    requires ValidMap(m)
  {
    if action == GO_UP then GetNorth(m, p.x, p.y)
    else if action == GO_LEFT then GetWest(m, p.x, p.y)
    else if action == GO_DOWN then GetSouth(m, p.x, p.y)
    else GetEast(m, p.x, p.y)
  }

  /**
   * A move: the player steps towards the target when in omnipotent mode, or
   * when the getter finds no tile there, or a walkable one.
   */
  function Move(m: Map, pl: Player, action: int): (r: Player)
    requires ValidMap(m) && IsMove(action)
    ensures r.(x := pl.x, y := pl.y) == pl
    ensures Here(r) == Here(pl) || Here(r) == Target(Here(pl), action)
    ensures pl.omni ==> Here(r) == Target(Here(pl), action)
  {
    var to := Target(Here(pl), action);
    if pl.omni || !Blocks(Ahead(m, Here(pl), action)) then pl.(x := to.x, y := to.y) else pl
  }

  /**
   * On the map, a move without omnipotent mode is taken exactly when the
   * target cell holds no tile or a walkable one.
   */
  lemma MoveRespectsTiles(m: Map, pl: Player, action: int)
    requires ValidMap(m) && IsMove(action) && !pl.omni
    requires var to := Target(Here(pl), action); InBounds(m, to.x, to.y)
    ensures var to := Target(Here(pl), action);
            Here(Move(m, pl, action)) == to <==> !Blocks(At(m, to.x, to.y))
  {
    var to := Target(Here(pl), action);
    assert Ahead(m, Here(pl), action) == At(m, to.x, to.y);
  }

  /** Talking to the NPC found at `l`: the dialogue advances and the tile's payload is updated in place. */
  function TalkTo(s: State, l: Look): (r: State)
    requires ValidRegistry(s.maps) && l.tile.Some?
    ensures ValidRegistry(r.maps)
    ensures r.player == s.player && r.npc == s.npc && r.walkCounter == s.walkCounter
    ensures GetActiveMap(r.maps) == GetActiveMap(s.maps)
  {
    var talked := Talk(s.dialogue, s.player.hasKey, l.tile.value.data);
    var stored := Store(Active(s.maps), LookupKey(l.at.x, l.at.y), l.tile.value.(data := talked.data));
    s.(maps := WithActive(s.maps, stored.grid), dialogue := talked.state)
  }

  /** After talking, the dialogue state is the conversation's, and the NPC's cell holds the updated payload. */
  lemma TalkToEffect(s: State, l: Look)
    requires ValidRegistry(s.maps) && l.tile.Some? && l.tile == Seen(Active(s.maps), l.at)
    ensures var talked := Talk(s.dialogue, s.player.hasKey, l.tile.value.data);
            var r := TalkTo(s, l);
            && r.dialogue == talked.state
            && Seen(Active(r.maps), l.at) == Some(l.tile.value.(data := talked.data))
  {
    var talked := Talk(s.dialogue, s.player.hasKey, l.tile.value.data);
    StoreThenHere(Active(s.maps), l.at.x, l.at.y, l.tile.value.(data := talked.data));
  }

  /** Taking the key found at `l`: its cell is erased and the player holds the key. */
  function TakeKey(s: State, l: Look): (r: State)
    requires ValidRegistry(s.maps)
    ensures ValidRegistry(r.maps)
    ensures r.player == s.player.(hasKey := true)
    ensures r.npc == s.npc && r.walkCounter == s.walkCounter && r.dialogue == s.dialogue
    ensures GetActiveMap(r.maps) == GetActiveMap(s.maps)
  {
    var erased := MapErase(Active(s.maps), l.at.x, l.at.y);
    s.(maps := WithActive(s.maps, erased.grid), player := s.player.(hasKey := true))
  }

  /** After taking the key, its cell is empty. */
  lemma TakeKeyEffect(s: State, l: Look)
    requires ValidRegistry(s.maps) && l.tile.Some? && l.tile == Seen(Active(s.maps), l.at)
    ensures Seen(Active(TakeKey(s, l).maps), l.at) == None
  {
    EraseThenHere(Active(s.maps), l.at.x, l.at.y);
  }

  /** Opening the door found at `l`: its tile becomes walkable and is drawn open. */
  function OpenDoor(s: State, l: Look): (r: State)
    requires ValidRegistry(s.maps) && l.tile.Some?
    ensures ValidRegistry(r.maps)
    ensures r.player == s.player && r.npc == s.npc && r.walkCounter == s.walkCounter && r.dialogue == s.dialogue
    ensures GetActiveMap(r.maps) == GetActiveMap(s.maps)
  {
    var open := l.tile.value.(walkable := true, draw := DrawDoorOpen);
    var stored := Store(Active(s.maps), LookupKey(l.at.x, l.at.y), open);
    s.(maps := WithActive(s.maps, stored.grid))
  }

  /** After opening, the door's cell holds the same door, now walkable and drawn open. */
  lemma OpenDoorEffect(s: State, l: Look)
    requires ValidRegistry(s.maps) && l.tile.Some? && l.tile == Seen(Active(s.maps), l.at)
    ensures var t := Seen(Active(OpenDoor(s, l).maps), l.at);
            && t.Some? && t.value.walkable && t.value.draw == DrawDoorOpen
            && t.value.kind == l.tile.value.kind && t.value.data == l.tile.value.data
  {
    StoreThenHere(Active(s.maps), l.at.x, l.at.y, l.tile.value.(walkable := true, draw := DrawDoorOpen));
  }

  /** Where the player lands after the stairs to map `n`: fixed entry cells, (25, 25) for any other number. */
  function EntryPoint(n: int): (r: Pos)
    ensures n == 1 ==> r == Pos(7, 28)
    ensures n == 0 ==> r == Pos(22, 26)
    ensures n != 0 && n != 1 ==> r == Pos(25, 25)
  {
    if n == 1 then Pos(7, 28)
    else if n == 0 then Pos(22, 26)
    else Pos(25, 25)
  }

  /**
   * Taking the stairs found at `l`: the payload is read as a map number,
   * which becomes the active map, and the player lands on its entry cell.
   * A stairs tile without a payload is a null dereference.
   */
  function TakeStairs(s: State, l: Look): (r: Result<State, Fault>)
    requires l.tile.Some?
    ensures r.Failure? <==> l.tile.value.data.Null?
    ensures r.Success? ==> r.value.maps.overworld == s.maps.overworld && r.value.maps.ruins == s.maps.ruins
    ensures r.Success? ==> r.value.player.(x := s.player.x, y := s.player.y) == s.player
    ensures r.Success? ==> r.value.npc == s.npc && r.value.walkCounter == s.walkCounter
    ensures r.Success? ==> r.value.dialogue == s.dialogue
  {
    match Deref(l.tile.value.data, s.dialogue)
    case None => Failure(NullDereference)
    case Some(n) =>
      var at := EntryPoint(n);
      Success(s.(maps := SetActiveMap(s.maps, n).registry, player := s.player.(x := at.x, y := at.y)))
  }

  /**
   * Stairs carrying map number 0 or 1 make that map the active one and put the
   * player on its entry cell; any other number leaves the overworld active
   * (`get_active_map` falls back to it) with the player on (25, 25).
   */
  lemma TakeStairsEffect(s: State, l: Look, n: int)
    requires l.tile.Some? && l.tile.value.data == Ref(Constant(n))
    ensures TakeStairs(s, l).Success?
    ensures var r := TakeStairs(s, l).value;
            && GetActiveMap(r.maps) == GetMap(n)
            && Active(r.maps) == Lookup(s.maps, GetMap(n))
            && Here(r.player) == (if n == 1 then Pos(7, 28) else if n == 0 then Pos(22, 26) else Pos(25, 25))
  {
  }

  /**
   * The action button: the first of talk to an adjacent NPC, take a key on or
   * next to the player, open an adjacent door while holding the key, take a
   * win item, take the stairs, that applies; `None` when none applies.
   */
  function Act(s: State): (r: Result<Reply, Fault>)
    requires ValidRegistry(s.maps)
    ensures r.Success? ==> ValidRegistry(r.value.state.maps)
    ensures r.Success? ==> r.value.code in {None, Some(FULL_DRAW), Some(GAME_OVER_WIN)}
    ensures r.Success? && r.value.code != Some(FULL_DRAW) ==> r.value.state == s
    ensures r.Success? ==> var pl := r.value.state.player;
                           pl.px == s.player.px && pl.py == s.player.py && pl.omni == s.player.omni
    ensures r.Success? ==> s.player.hasKey ==> r.value.state.player.hasKey
    ensures r.Success? ==> r.value.state.npc == s.npc && r.value.state.walkCounter == s.walkCounter
    ensures r.Failure? ==> var near := NextTo(Active(s.maps), Here(s.player), Stairs, true);
                           near.Some? && near.value.tile.value.data.Null?
  {
    var m := Active(s.maps);
    var p := Here(s.player);
    var npc := NextTo(m, p, Npc, false);
    if npc.Some? then Success(Reply(TalkTo(s, npc.value), Some(FULL_DRAW)))
    else
      var key := NextTo(m, p, KeyItem, true);
      if key.Some? then Success(Reply(TakeKey(s, key.value), Some(FULL_DRAW)))
      else
        var door := NextTo(m, p, Door, false);
        if s.player.hasKey && door.Some? then Success(Reply(OpenDoor(s, door.value), Some(FULL_DRAW)))
        else if NextTo(m, p, WinItem, true).Some? then Success(Reply(s, Some(GAME_OVER_WIN)))
        else
          var stairs := NextTo(m, p, Stairs, true);
          if stairs.None? then Success(Reply(s, None))
          else
            match TakeStairs(s, stairs.value)
            case Failure(e) => Failure(e)
            case Success(s') => Success(Reply(s', Some(FULL_DRAW)))
  }

  /** Some cell next to the player (or under them, when `on`) holds a tile of the kind. */
  ghost predicate Around(s: State, kind: Kind, on: bool)
    requires ValidRegistry(s.maps)
  {
    exists q :: Near(Here(s.player), q, on) && IsKind(Seen(Active(s.maps), q), kind)
  }

  /**
   * With an NPC next to the player, the action button talks to it: the dialogue
   * advances as the conversation says and the NPC's cell carries the new payload.
   */
  lemma ActTalks(s: State)
    requires ValidRegistry(s.maps) && InBounds(Active(s.maps), s.player.x, s.player.y)
    requires Around(s, Npc, false)
    ensures NextTo(Active(s.maps), Here(s.player), Npc, false).Some?
    ensures var l := NextTo(Active(s.maps), Here(s.player), Npc, false).value;
            var talked := Talk(s.dialogue, s.player.hasKey, l.tile.value.data);
            var r := Act(s);
            && Near(Here(s.player), l.at, false) && IsKind(Seen(Active(s.maps), l.at), Npc)
            && r.Success? && r.value.code == Some(FULL_DRAW)
            && r.value.state.dialogue == talked.state
            && Seen(Active(r.value.state.maps), l.at) == Some(l.tile.value.(data := talked.data))
  {
    var m := Active(s.maps);
    NextToFinds(m, Here(s.player), Npc, false);
    var l := NextTo(m, Here(s.player), Npc, false).value;
    assert Act(s) == Success(Reply(TalkTo(s, l), Some(FULL_DRAW)));
    TalkToEffect(s, l);
  }

  /**
   * With no NPC next to the player and a key on or next to them, the action
   * button takes the key: the player holds it and its cell is empty.
   */
  lemma ActTakesKey(s: State)
    requires ValidRegistry(s.maps) && InBounds(Active(s.maps), s.player.x, s.player.y)
    requires !Around(s, Npc, false) && Around(s, KeyItem, true)
    ensures NextTo(Active(s.maps), Here(s.player), KeyItem, true).Some?
    ensures var l := NextTo(Active(s.maps), Here(s.player), KeyItem, true).value;
            var r := Act(s);
            && Near(Here(s.player), l.at, true) && IsKind(Seen(Active(s.maps), l.at), KeyItem)
            && r.Success? && r.value.code == Some(FULL_DRAW)
            && r.value.state.player.hasKey
            && Seen(Active(r.value.state.maps), l.at) == None
  {
    var m := Active(s.maps);
    NextToFinds(m, Here(s.player), Npc, false);
    NextToFinds(m, Here(s.player), KeyItem, true);
    var l := NextTo(m, Here(s.player), KeyItem, true).value;
    assert Act(s) == Success(Reply(TakeKey(s, l), Some(FULL_DRAW)));
    TakeKeyEffect(s, l);
  }

  /**
   * Holding the key, with no NPC next to the player and no key around, the
   * action button opens an adjacent door: its cell becomes walkable and drawn open.
   */
  lemma ActOpensDoor(s: State)
    requires ValidRegistry(s.maps) && InBounds(Active(s.maps), s.player.x, s.player.y)
    requires !Around(s, Npc, false) && !Around(s, KeyItem, true)
    requires s.player.hasKey && Around(s, Door, false)
    ensures NextTo(Active(s.maps), Here(s.player), Door, false).Some?
    ensures var l := NextTo(Active(s.maps), Here(s.player), Door, false).value;
            var r := Act(s);
            && Near(Here(s.player), l.at, false) && IsKind(Seen(Active(s.maps), l.at), Door)
            && r.Success? && r.value.code == Some(FULL_DRAW)
            && var t := Seen(Active(r.value.state.maps), l.at);
               t.Some? && t.value.kind == Door && t.value.walkable && t.value.draw == DrawDoorOpen
  {
    var m := Active(s.maps);
    NextToFinds(m, Here(s.player), Npc, false);
    NextToFinds(m, Here(s.player), KeyItem, true);
    NextToFinds(m, Here(s.player), Door, false);
    var l := NextTo(m, Here(s.player), Door, false).value;
    assert Act(s) == Success(Reply(OpenDoor(s, l), Some(FULL_DRAW)));
    OpenDoorEffect(s, l);
  }

  /**
   * Without the key, and with no NPC and no key around, the action button
   * leaves both maps' tiles alone: no door opens.
   */
  lemma DoorNeedsKey(s: State)
    requires ValidRegistry(s.maps) && InBounds(Active(s.maps), s.player.x, s.player.y)
    requires !s.player.hasKey && !Around(s, Npc, false) && !Around(s, KeyItem, true)
    ensures Act(s).Success? ==>
              Act(s).value.state.maps.overworld == s.maps.overworld &&
              Act(s).value.state.maps.ruins == s.maps.ruins
  {
    var m := Active(s.maps);
    var p := Here(s.player);
    NextToFinds(m, p, Npc, false);
    NextToFinds(m, p, KeyItem, true);
    assert NextTo(m, p, Npc, false).None? && NextTo(m, p, KeyItem, true).None?;
    var stairs := NextTo(m, p, Stairs, true);
    if NextTo(m, p, WinItem, true).Some? {
      assert Act(s) == Success(Reply(s, Some(GAME_OVER_WIN)));
    } else if stairs.None? {
      assert Act(s) == Success(Reply(s, None));
    } else {
      var taken := TakeStairs(s, stairs.value);
      assert taken.Success? ==> Act(s) == Success(Reply(taken.value, Some(FULL_DRAW)));
    }
  }

  /**
   * The action button wins the game only when no earlier interaction applies
   * and a win item lies on or next to the player.
   */
  lemma WinNeedsItem(s: State)
    requires ValidRegistry(s.maps) && InBounds(Active(s.maps), s.player.x, s.player.y)
    requires Act(s).Success? && Act(s).value.code == Some(GAME_OVER_WIN)
    ensures !Around(s, Npc, false) && !Around(s, KeyItem, true)
    ensures !(s.player.hasKey && Around(s, Door, false))
    ensures Around(s, WinItem, true)
  {
    var m := Active(s.maps);
    var p := Here(s.player);
    assert NextTo(m, p, Npc, false).None? && NextTo(m, p, KeyItem, true).None?;
    assert !(s.player.hasKey && NextTo(m, p, Door, false).Some?);
    assert NextTo(m, p, WinItem, true).Some?;
    NextToFinds(m, p, Npc, false);
    NextToFinds(m, p, KeyItem, true);
    NextToFinds(m, p, Door, false);
    NextToFinds(m, p, WinItem, true);
  }

  /** Conversely, when no earlier interaction applies, a win item around the player wins the game. */
  lemma ItemWins(s: State)
    requires ValidRegistry(s.maps) && InBounds(Active(s.maps), s.player.x, s.player.y)
    requires !Around(s, Npc, false) && !Around(s, KeyItem, true)
    requires !(s.player.hasKey && Around(s, Door, false))
    requires Around(s, WinItem, true)
    ensures Act(s) == Success(Reply(s, Some(GAME_OVER_WIN)))
  {
    var m := Active(s.maps);
    var p := Here(s.player);
    NextToFinds(m, p, Npc, false);
    NextToFinds(m, p, KeyItem, true);
    NextToFinds(m, p, Door, false);
    NextToFinds(m, p, WinItem, true);
    assert NextTo(m, p, Npc, false).None? && NextTo(m, p, KeyItem, true).None?;
    assert !(s.player.hasKey && NextTo(m, p, Door, false).Some?);
  }

  /** The code a frame ends with when the action button did not return early. */
  function Redraw(fullDraw: bool): int
  {
    if fullDraw then FULL_DRAW else NO_RESULT
  }

  /**
   * The part of `update_game` after the NPC's phase: act on the action, and
   * end with the action button's early code or else with the phase's redraw.
   */
  function Respond(s: State, action: int, fullDraw: bool): (r: Result<Frame, Fault>)
    requires ValidRegistry(s.maps)
    ensures r.Success? ==> ValidRegistry(r.value.state.maps)
    ensures r.Success? ==> r.value.state.player.px == s.player.px && r.value.state.player.py == s.player.py
    ensures r.Success? ==> r.value.state.npc == s.npc && r.value.state.walkCounter == s.walkCounter
    ensures r.Success? ==> r.value.result in {NO_RESULT, GAME_OVER_WIN, FULL_DRAW}
    ensures r.Success? && r.value.result == NO_RESULT ==>
              !fullDraw && r.value.state.maps == s.maps && r.value.state.dialogue == s.dialogue
    ensures r.Success? && r.value.result == GAME_OVER_WIN ==> action == ACTION_BUTTON
    ensures r.Failure? ==> action == ACTION_BUTTON
    ensures r.Success? && s.player.hasKey ==> r.value.state.player.hasKey
  {
    if action == ACTION_BUTTON then
      match Act(s)
      case Failure(e) => Failure(e)
      case Success(reply) =>
        Success(Frame(reply.state, if reply.code.Some? then reply.code.value else Redraw(fullDraw)))
    else if IsMove(action) then
      Success(Frame(s.(player := Move(Active(s.maps), s.player, action)), Redraw(fullDraw)))
    else if action == OMNI_BUTTON then
      Success(Frame(s.(player := s.player.(omni := !s.player.omni)), Redraw(fullDraw)))
    else
      Success(Frame(s, Redraw(fullDraw)))
  }

  /** The state once the player's position has been saved as the previous one. */
  function Saved(s: State): State
  {
    s.(player := s.player.(px := s.player.x, py := s.player.y))
  }

  /**
   * `update_game`: save the previous position, run the NPC's phase, then act
   * on the action.  Only the stairs' null dereference is a failure.
   */
  function UpdateGame(s: State, action: int, draws: seq<nat>): (r: Result<Frame, Fault>)
    requires ValidRegistry(s.maps)
    ensures r.Success? ==> ValidRegistry(r.value.state.maps)
    ensures r.Success? ==> r.value.state.player.px == s.player.x && r.value.state.player.py == s.player.y
    ensures r.Success? ==> r.value.result in {NO_RESULT, GAME_OVER_WIN, FULL_DRAW}
    ensures r.Success? && r.value.result == GAME_OVER_WIN ==> action == ACTION_BUTTON
    ensures r.Failure? ==> action == ACTION_BUTTON
    ensures r.Success? && s.player.hasKey ==> r.value.state.player.hasKey
  {
    var phase := NpcPhase(Saved(s), action, draws);
    Respond(phase.state, action, phase.fullDraw)
  }

  /**
   * On the overworld the walk counter stays below the period from frame to
   * frame: reaching it walks the NPC and resets the counter.
   */
  lemma CounterStaysBelowPeriod(s: State, action: int, draws: seq<nat>)
    requires ValidRegistry(s.maps) && GetActiveMap(s.maps) == Overworld
    requires 0 <= s.walkCounter < WALK_PERIOD
    requires UpdateGame(s, action, draws).Success?
    ensures 0 <= UpdateGame(s, action, draws).value.state.walkCounter < WALK_PERIOD
  {
    var phase := NpcPhase(Saved(s), action, draws);
    assert UpdateGame(s, action, draws) == Respond(phase.state, action, phase.fullDraw);
  }

  /** A frame that ends with `NO_RESULT` changed neither map, the NPC nor the dialogue. */
  lemma NoResultKeepsWorld(s: State, action: int, draws: seq<nat>)
    requires ValidRegistry(s.maps)
    requires UpdateGame(s, action, draws).Success?
    requires UpdateGame(s, action, draws).value.result == NO_RESULT
    ensures var r := UpdateGame(s, action, draws).value.state;
            r.maps == s.maps && r.npc == s.npc && r.dialogue == s.dialogue
  {
    var phase := NpcPhase(Saved(s), action, draws);
    assert UpdateGame(s, action, draws) == Respond(phase.state, action, phase.fullDraw);
  }

  /** The omnipotent button flips the mode and leaves the player where they stand. */
  lemma OmniToggles(s: State, draws: seq<nat>)
    requires ValidRegistry(s.maps)
    ensures UpdateGame(s, OMNI_BUTTON, draws).Success?
    ensures var pl := UpdateGame(s, OMNI_BUTTON, draws).value.state.player;
            pl.omni == !s.player.omni && Here(pl) == Here(s.player) && pl.hasKey == s.player.hasKey
  {
    var phase := NpcPhase(Saved(s), OMNI_BUTTON, draws);
    assert UpdateGame(s, OMNI_BUTTON, draws) == Respond(phase.state, OMNI_BUTTON, phase.fullDraw);
  }

  /**
   * Outside omnipotent mode, a move of the player that stays on the map never
   * ends on a tile that is not walkable (as the map stands after the NPC's phase).
   */
  lemma MovesAvoidWalls(s: State, action: int, draws: seq<nat>)
    requires ValidRegistry(s.maps) && IsMove(action) && !s.player.omni
    requires var to := Target(Here(s.player), action); InBounds(Active(s.maps), to.x, to.y)
    ensures var r := UpdateGame(s, action, draws).value.state;
            Here(r.player) == Here(s.player) || !Blocks(At(Active(r.maps), r.player.x, r.player.y))
  {
    var phase := NpcPhase(Saved(s), action, draws);
    var s1 := phase.state;
    assert UpdateGame(s, action, draws) == Respond(s1, action, phase.fullDraw);
    MoveRespectsTiles(Active(s1.maps), s1.player, action);
  }
}
