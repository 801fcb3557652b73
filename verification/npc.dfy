/**
 * The NPC: its random walk over the overworld, driven by a list of random
 * draws in place of `rand()`, and its dialogue state machine.
 */
module Npc {
  import opened Wrappers
  import opened TileMap

  /** Dialogue states. */
  const START: int := 1
  const GO: int := 2
  const FOUND: int := 3
  const END: int := 4

  /** A cell of the map. */
  datatype Pos = Pos(x: int, y: int)

  /** The outcome of one pass of the walk loop: the NPC ends up somewhere, or draws again. */
  datatype Outcome = Settle(to: Pos) | Retry

  /** The lines the NPC speaks. */
  datatype Speech = StartLines | GoLines | FoundLines | EndLines | ConfusedLines

  /** The dialogue state after a conversation, the NPC tile's payload, and the lines spoken. */
  datatype Talked = Talked(state: int, data: Payload, lines: Speech)

  /** The cell one step in each direction. */
  function North(p: Pos): Pos { Pos(p.x, p.y - 1) }
  function South(p: Pos): Pos { Pos(p.x, p.y + 1) }
  function East(p: Pos): Pos { Pos(p.x + 1, p.y) }
  function West(p: Pos): Pos { Pos(p.x - 1, p.y) }

  /** A neighbour query found a tile that blocks movement. */
  predicate Blocks(t: Option<Tile>)
  {
    t.Some? && !t.value.walkable
  }

  /** A move towards a neighbour whose tile is `next`: taken when there is no tile or it is walkable. */
  function Step(next: Option<Tile>, to: Pos): (r: Outcome)
    ensures r.Settle? <==> next.None? || next.value.walkable
    ensures r.Settle? ==> r.to == to
  {
    if next.None? || next.value.walkable then Settle(to) else Retry
  }

  /**
   * One pass of the NPC's walk loop as written, for the draw `d` (direction
   * `d % 5`): 1 north, 2 east, 3 south, 4 north again (labelled "move left"),
   * anything else stays, which ends the loop only when the NPC's own cell has
   * no blocking tile.
   */
  function AttemptAsWritten(m: Map, p: Pos, d: nat): (r: Outcome)
    requires ValidMap(m)
    ensures d % 5 == 0 ==> (r.Retry? <==> GetHere(m, p.x, p.y).Some? && !GetHere(m, p.x, p.y).value.walkable)
  {
    var dir := d % 5;
    if dir == 1 then Step(GetNorth(m, p.x, p.y), North(p))
    else if dir == 2 then Step(GetEast(m, p.x, p.y), East(p))
    else if dir == 3 then Step(GetSouth(m, p.x, p.y), South(p))
    else if dir == 4 then Step(GetNorth(m, p.x, p.y), North(p))
    else
      var here := GetHere(m, p.x, p.y);
      if here.Some? && !here.value.walkable then Retry else Settle(p)
  }

  /** One pass of the walk loop as intended: 4 moves west and staying still always ends the loop. */
  function Attempt(m: Map, p: Pos, d: nat): (r: Outcome)
    requires ValidMap(m)
    ensures d % 5 == 0 ==> r == Settle(p)
    ensures r.Settle? ==> r.to in {p, North(p), South(p), East(p), West(p)}
  {
    var dir := d % 5;
    if dir == 1 then Step(GetNorth(m, p.x, p.y), North(p))
    else if dir == 2 then Step(GetEast(m, p.x, p.y), East(p))
    else if dir == 3 then Step(GetSouth(m, p.x, p.y), South(p))
    else if dir == 4 then Step(GetWest(m, p.x, p.y), West(p))
    else Settle(p)
  }

  /**
   * The two versions of one pass differ only in direction 4, which the code
   * as written treats as direction 1, and in direction 0, where the intended
   * version always stays.
   */
  lemma AttemptsAgree(m: Map, p: Pos, d: nat)
    requires ValidMap(m)
    ensures d % 5 == 4 ==> AttemptAsWritten(m, p, d) == AttemptAsWritten(m, p, 1)
    ensures d % 5 != 4 && d % 5 != 0 ==> Attempt(m, p, d) == AttemptAsWritten(m, p, d)
  {
  }

  /** Every draw before position `i` made the as-written loop draw again. */
  ghost predicate RetriedAsWritten(m: Map, p: Pos, draws: seq<nat>, i: int)
    requires ValidMap(m) && i <= |draws|
  {
    forall j :: 0 <= j < i ==> AttemptAsWritten(m, p, draws[j]).Retry?
  }

  /** Every draw before position `i` made the intended loop draw again. */
  ghost predicate Retried(m: Map, p: Pos, draws: seq<nat>, i: int)
    requires ValidMap(m) && i <= |draws|
  {
    forall j :: 0 <= j < i ==> Attempt(m, p, draws[j]).Retry?
  }

  /**
   * The do-while loop of the NPC move as written: the cell of the first
   * attempt that ends the loop, or nothing when the draws run out first.
   */
  function WalkAsWritten(m: Map, p: Pos, draws: seq<nat>): (r: Option<Pos>)
    requires ValidMap(m)
    ensures r.None? <==> RetriedAsWritten(m, p, draws, |draws|)
    ensures r.Some? ==> exists i :: 0 <= i < |draws| && RetriedAsWritten(m, p, draws, i) &&
                                    AttemptAsWritten(m, p, draws[i]) == Settle(r.value)
    decreases |draws|
  {
    if |draws| == 0 then None
    else match AttemptAsWritten(m, p, draws[0])
      case Settle(q) => Some(q)
      case Retry =>
        var r := WalkAsWritten(m, p, draws[1..]);
        RetryFirstAsWritten(m, p, draws, r);
        r
  }

  lemma RetryFirstAsWritten(m: Map, p: Pos, draws: seq<nat>, r: Option<Pos>)
    requires ValidMap(m) && |draws| > 0 && AttemptAsWritten(m, p, draws[0]).Retry?
    requires r.None? <==> RetriedAsWritten(m, p, draws[1..], |draws| - 1)
    requires r.Some? ==> exists i :: 0 <= i < |draws| - 1 && RetriedAsWritten(m, p, draws[1..], i) &&
                                     AttemptAsWritten(m, p, draws[1..][i]) == Settle(r.value)
    ensures r.None? <==> RetriedAsWritten(m, p, draws, |draws|)
    ensures r.Some? ==> exists i :: 0 <= i < |draws| && RetriedAsWritten(m, p, draws, i) &&
                                    AttemptAsWritten(m, p, draws[i]) == Settle(r.value)
  {
    assert forall j :: 1 <= j < |draws| ==> draws[1..][j - 1] == draws[j];
    if r.Some? {
      var i :| 0 <= i < |draws| - 1 && RetriedAsWritten(m, p, draws[1..], i) &&
               AttemptAsWritten(m, p, draws[1..][i]) == Settle(r.value);
      assert RetriedAsWritten(m, p, draws, i + 1);
    }
  }

  /** The NPC move loop as intended: the cell of the first attempt that ends it. */
  function Walk(m: Map, p: Pos, draws: seq<nat>): (r: Option<Pos>)
    requires ValidMap(m)
    ensures r.None? <==> Retried(m, p, draws, |draws|)
    ensures r.Some? ==> exists i :: 0 <= i < |draws| && Retried(m, p, draws, i) &&
                                    Attempt(m, p, draws[i]) == Settle(r.value)
    decreases |draws|
  {
    if |draws| == 0 then None
    else match Attempt(m, p, draws[0])
      case Settle(q) => Some(q)
      case Retry =>
        var r := Walk(m, p, draws[1..]);
        RetryFirst(m, p, draws, r);
        r
  }

  lemma RetryFirst(m: Map, p: Pos, draws: seq<nat>, r: Option<Pos>)
    requires ValidMap(m) && |draws| > 0 && Attempt(m, p, draws[0]).Retry?
    requires r.None? <==> Retried(m, p, draws[1..], |draws| - 1)
    requires r.Some? ==> exists i :: 0 <= i < |draws| - 1 && Retried(m, p, draws[1..], i) &&
                                     Attempt(m, p, draws[1..][i]) == Settle(r.value)
    ensures r.None? <==> Retried(m, p, draws, |draws|)
    ensures r.Some? ==> exists i :: 0 <= i < |draws| && Retried(m, p, draws, i) &&
                                    Attempt(m, p, draws[i]) == Settle(r.value)
  {
    assert forall j :: 1 <= j < |draws| ==> draws[1..][j - 1] == draws[j];
    if r.Some? {
      var i :| 0 <= i < |draws| - 1 && Retried(m, p, draws[1..], i) &&
               Attempt(m, p, draws[1..][i]) == Settle(r.value);
      assert Retried(m, p, draws, i + 1);
    }
  }

  /**
   * The intended walk never enters a blocking tile: it ends on the NPC's own
   * cell or on a neighbour whose directional query found no tile or a walkable one.
   */
  lemma WalkIsSafe(m: Map, p: Pos, draws: seq<nat>)
    requires ValidMap(m)
    requires Walk(m, p, draws).Some?
    ensures var q := Walk(m, p, draws).value;
            || q == p
            || (q == North(p) && !Blocks(GetNorth(m, p.x, p.y)))
            || (q == South(p) && !Blocks(GetSouth(m, p.x, p.y)))
            || (q == East(p) && !Blocks(GetEast(m, p.x, p.y)))
            || (q == West(p) && !Blocks(GetWest(m, p.x, p.y)))
  {
    var q := Walk(m, p, draws).value;
    var i :| 0 <= i < |draws| && Retried(m, p, draws, i) && Attempt(m, p, draws[i]) == Settle(q);
    AttemptIsSafe(m, p, draws[i]);
  }

  /** One pass of the intended loop settles only where the move is allowed. */
  lemma AttemptIsSafe(m: Map, p: Pos, d: nat)
    requires ValidMap(m)
    ensures var r := Attempt(m, p, d);
            r.Settle? ==>
              || r.to == p
              || (r.to == North(p) && !Blocks(GetNorth(m, p.x, p.y)))
              || (r.to == South(p) && !Blocks(GetSouth(m, p.x, p.y)))
              || (r.to == East(p) && !Blocks(GetEast(m, p.x, p.y)))
              || (r.to == West(p) && !Blocks(GetWest(m, p.x, p.y)))
  {
  }

  /**
   * The walk as written never enters a blocking tile either: it ends on the
   * NPC's own cell only when that cell does not block, never moves west, and
   * otherwise ends on a neighbour above, below or to the right whose query
   * found no tile or a walkable one.
   */
  lemma WalkAsWrittenIsSafe(m: Map, p: Pos, draws: seq<nat>)
    requires ValidMap(m)
    requires WalkAsWritten(m, p, draws).Some?
    ensures var q := WalkAsWritten(m, p, draws).value;
            || (q == p && !Blocks(GetHere(m, p.x, p.y)))
            || (q == North(p) && !Blocks(GetNorth(m, p.x, p.y)))
            || (q == South(p) && !Blocks(GetSouth(m, p.x, p.y)))
            || (q == East(p) && !Blocks(GetEast(m, p.x, p.y)))
  {
    var q := WalkAsWritten(m, p, draws).value;
    var i :| 0 <= i < |draws| && RetriedAsWritten(m, p, draws, i) && AttemptAsWritten(m, p, draws[i]) == Settle(q);
    AttemptAsWrittenIsSafe(m, p, draws[i]);
  }

  /** One pass of the loop as written settles only where the move is allowed. */
  lemma AttemptAsWrittenIsSafe(m: Map, p: Pos, d: nat)
    requires ValidMap(m)
    ensures var r := AttemptAsWritten(m, p, d);
            r.Settle? ==>
              || (r.to == p && !Blocks(GetHere(m, p.x, p.y)))
              || (r.to == North(p) && !Blocks(GetNorth(m, p.x, p.y)))
              || (r.to == South(p) && !Blocks(GetSouth(m, p.x, p.y)))
              || (r.to == East(p) && !Blocks(GetEast(m, p.x, p.y)))
  {
  }

  /**
   * Over draws that never mean "move left" or "stay", the two defects do not
   * show: the walk as written and the intended walk end on the same cell.
   */
  lemma {:induction false} WalksAgree(m: Map, p: Pos, draws: seq<nat>)
    requires ValidMap(m)
    requires forall k :: 0 <= k < |draws| ==> 1 <= draws[k] % 5 <= 3
    ensures Walk(m, p, draws) == WalkAsWritten(m, p, draws)
    decreases |draws|
  {
    if |draws| > 0 {
      AttemptsAgree(m, p, draws[0]);
      assert forall k :: 0 <= k < |draws| - 1 ==> draws[1..][k] == draws[k + 1];
      WalksAgree(m, p, draws[1..]);
    }
  }

  /** The intended walk ends at the first draw that means "stay", if no move succeeded before it. */
  lemma {:induction false} WalkStopsAtStay(m: Map, p: Pos, draws: seq<nat>, k: nat)
    requires ValidMap(m)
    requires k < |draws| && draws[k] % 5 == 0
    ensures Walk(m, p, draws).Some?
    ensures Retried(m, p, draws, k) ==> Walk(m, p, draws) == Some(p)
    decreases k
  {
    if Attempt(m, p, draws[0]).Retry? {
      assert k > 0;
      assert draws[1..][k - 1] == draws[k];
      WalkStopsAtStay(m, p, draws[1..], k - 1);
      if Retried(m, p, draws, k) {
        assert Retried(m, p, draws[1..], k - 1) by {
          forall j | 0 <= j < k - 1 ensures Attempt(m, p, draws[1..][j]).Retry? {
            assert draws[1..][j] == draws[j + 1];
          }
        }
      }
    }
  }

  /**
   * As written, "move left" is a second "move up": on a map where both the
   * cell above and the cell to the left are free, the NPC goes up, not left.
   */
  lemma LeftMovesUp(m: Map, p: Pos)
    requires ValidMap(m)
    requires 0 < p.x < MAP_WIDTH && 0 < p.y < MAP_HEIGHT
    requires At(m, p.x, p.y - 1).None? && At(m, p.x - 1, p.y).None?
    ensures AttemptAsWritten(m, p, 4) == Settle(North(p))
    ensures Attempt(m, p, 4) == Settle(West(p))
    ensures North(p) != West(p)
  {
    NorthFree(m, p);
    WestFree(m, p);
    FourAsWritten(m, p);
    FourIntended(m, p);
  }

  lemma FourAsWritten(m: Map, p: Pos)
    requires ValidMap(m)
    ensures AttemptAsWritten(m, p, 4) == Step(GetNorth(m, p.x, p.y), North(p))
  {
    assert 4 % 5 == 4;
  }

  lemma FourIntended(m: Map, p: Pos)
    requires ValidMap(m)
    ensures Attempt(m, p, 4) == Step(GetWest(m, p.x, p.y), West(p))
  {
    assert 4 % 5 == 4;
  }

  lemma NorthFree(m: Map, p: Pos)
    requires ValidMap(m)
    requires 0 <= p.x < MAP_WIDTH && 0 < p.y < MAP_HEIGHT && At(m, p.x, p.y - 1).None?
    ensures GetNorth(m, p.x, p.y).None?
  {
    assert InBounds(m, p.x, p.y - 1);
  }

  lemma WestFree(m: Map, p: Pos)
    requires ValidMap(m)
    requires 0 < p.x < MAP_WIDTH && 0 <= p.y < MAP_HEIGHT && At(m, p.x - 1, p.y).None?
    ensures GetWest(m, p.x, p.y).None?
  {
    assert InBounds(m, p.x - 1, p.y);
  }

  /**
   * As written, "stay still" never ends the loop while the NPC's own blocking
   * tile is under it: boxed in on the sides it looks at, no sequence of draws
   * ever ends the walk, so the source spins forever.
   */
  lemma {:induction false} BoxedInSpinsForever(m: Map, p: Pos, draws: seq<nat>)
    requires ValidMap(m)
    requires Blocks(GetHere(m, p.x, p.y))
    requires Blocks(GetNorth(m, p.x, p.y)) && Blocks(GetSouth(m, p.x, p.y)) && Blocks(GetEast(m, p.x, p.y))
    ensures WalkAsWritten(m, p, draws) == None
    decreases |draws|
  {
    if |draws| > 0 {
      BoxedInRetriesAsWritten(m, p, draws[0]);
      BoxedInSpinsForever(m, p, draws[1..]);
    }
  }

  lemma BoxedInRetriesAsWritten(m: Map, p: Pos, d: nat)
    requires ValidMap(m)
    requires Blocks(GetHere(m, p.x, p.y))
    requires Blocks(GetNorth(m, p.x, p.y)) && Blocks(GetSouth(m, p.x, p.y)) && Blocks(GetEast(m, p.x, p.y))
    ensures AttemptAsWritten(m, p, d).Retry?
  {
    var dir := d % 5;
    if dir == 1 || dir == 4 {
      assert AttemptAsWritten(m, p, d) == Step(GetNorth(m, p.x, p.y), North(p));
    } else if dir == 2 {
      assert AttemptAsWritten(m, p, d) == Step(GetEast(m, p.x, p.y), East(p));
    } else if dir == 3 {
      assert AttemptAsWritten(m, p, d) == Step(GetSouth(m, p.x, p.y), South(p));
    }
  }

  /**
   * Boxed in on all four sides, the intended walk stays put at the first
   * "stay" draw, and draws again only while no such draw has come.
   */
  lemma {:induction false} BoxedInStays(m: Map, p: Pos, draws: seq<nat>)
    requires ValidMap(m)
    requires Blocks(GetNorth(m, p.x, p.y)) && Blocks(GetSouth(m, p.x, p.y))
    requires Blocks(GetEast(m, p.x, p.y)) && Blocks(GetWest(m, p.x, p.y))
    ensures (exists k :: 0 <= k < |draws| && draws[k] % 5 == 0) ==> Walk(m, p, draws) == Some(p)
    ensures (forall k :: 0 <= k < |draws| ==> draws[k] % 5 != 0) ==> Walk(m, p, draws) == None
    decreases |draws|
  {
    if |draws| > 0 && draws[0] % 5 != 0 {
      BoxedInSkips(m, p, draws);
      BoxedInStays(m, p, draws[1..]);
      StayInTail(draws);
    }
  }

  /** Boxed in on all four sides, a draw that does not mean "stay" is retried. */
  lemma BoxedInSkips(m: Map, p: Pos, draws: seq<nat>)
    requires ValidMap(m)
    requires Blocks(GetNorth(m, p.x, p.y)) && Blocks(GetSouth(m, p.x, p.y))
    requires Blocks(GetEast(m, p.x, p.y)) && Blocks(GetWest(m, p.x, p.y))
    requires |draws| > 0 && draws[0] % 5 != 0
    ensures Walk(m, p, draws) == Walk(m, p, draws[1..])
  {
    BoxedInRetries(m, p, draws[0]);
  }

  lemma BoxedInRetries(m: Map, p: Pos, d: nat)
    requires ValidMap(m)
    requires Blocks(GetNorth(m, p.x, p.y)) && Blocks(GetSouth(m, p.x, p.y))
    requires Blocks(GetEast(m, p.x, p.y)) && Blocks(GetWest(m, p.x, p.y))
    requires d % 5 != 0
    ensures Attempt(m, p, d).Retry?
  {
    var dir := d % 5;
    if dir == 1 {
      assert Attempt(m, p, d) == Step(GetNorth(m, p.x, p.y), North(p));
    } else if dir == 2 {
      assert Attempt(m, p, d) == Step(GetEast(m, p.x, p.y), East(p));
    } else if dir == 3 {
      assert Attempt(m, p, d) == Step(GetSouth(m, p.x, p.y), South(p));
    } else {
      assert Attempt(m, p, d) == Step(GetWest(m, p.x, p.y), West(p));
    }
  }

  /** A "stay" draw after a first draw that is not one lies in the rest of the list. */
  lemma StayInTail(draws: seq<nat>)
    requires |draws| > 0 && draws[0] % 5 != 0
    ensures (exists k :: 0 <= k < |draws| && draws[k] % 5 == 0) <==>
            (exists k :: 0 <= k < |draws| - 1 && draws[1..][k] % 5 == 0)
  {
    if exists k :: 0 <= k < |draws| && draws[k] % 5 == 0 {
      var k :| 0 <= k < |draws| && draws[k] % 5 == 0;
      assert draws[1..][k - 1] == draws[k];
    }
  }

  // ---------------------------------------------------------------------------
  // Dialogue

  /** Reads the integer an NPC payload points to, given the current dialogue state. */
  function Deref(data: Payload, state: int): (r: Option<int>)
    ensures data.Null? <==> r.None?
    ensures data == Ref(DialogueState) ==> r == Some(state)
    ensures data.Ref? && data.target.Constant? ==> r == Some(data.target.n)
  {
    match data
    case Null => None
    case Ref(DialogueState) => Some(state)
    case Ref(Constant(n)) => Some(n)
  }

  /**
   * Talking to the NPC: a player holding the key while the payload reads GO
   * moves the dialogue to FOUND first; then the payload's value picks the
   * lines, and START and FOUND advance to GO and END respectively.  Each
   * advance points the payload at the shared dialogue state.
   */
  function Talk(state: int, hasKey: bool, data: Payload): (r: Talked)
    ensures data.Null? ==> r == Talked(state, data, ConfusedLines)
    ensures data == Ref(DialogueState) ==> r.data == data
    ensures data == Ref(DialogueState) && state == START ==> r.state == GO && r.lines == StartLines
    ensures data == Ref(DialogueState) && state == GO && !hasKey ==> r.state == GO && r.lines == GoLines
    ensures data == Ref(DialogueState) && state == GO && hasKey ==> r.state == END && r.lines == FoundLines
    ensures data == Ref(DialogueState) && state == FOUND ==> r.state == END && r.lines == FoundLines
    ensures data == Ref(DialogueState) && state == END ==> r.state == END && r.lines == EndLines
    ensures data == Ref(DialogueState) && !(START <= state <= END) ==> r.state == state && r.lines == ConfusedLines
  {
    var found := data.Ref? && hasKey && Deref(data, state) == Some(GO);
    var state1 := if found then FOUND else state;
    var data1 := if found then Ref(DialogueState) else data;
    var v := Deref(data1, state1);
    if v == Some(START) then Talked(GO, Ref(DialogueState), StartLines)
    else if v == Some(GO) then Talked(state1, data1, GoLines)
    else if v == Some(FOUND) then Talked(END, Ref(DialogueState), FoundLines)
    else if v == Some(END) then Talked(state1, data1, EndLines)
    else Talked(state1, data1, ConfusedLines)
  }

  /** The dialogue through the shared state only moves forward and stays within START..END. */
  lemma TalkProgresses(state: int, hasKey: bool)
    requires START <= state <= END
    ensures var r := Talk(state, hasKey, Ref(DialogueState));
            state <= r.state <= END && (r.state == state <==> state == END || (state == GO && !hasKey))
  {
  }

  /**
   * From the start, three conversations finish the dialogue when the key has
   * been found before the second: START, then GO, then END.
   */
  lemma DialogueScript()
    ensures Talk(START, false, Ref(DialogueState)).state == GO
    ensures Talk(GO, true, Ref(DialogueState)).state == END
    ensures Talk(END, true, Ref(DialogueState)) == Talked(END, Ref(DialogueState), EndLines)
  {
  }
}
