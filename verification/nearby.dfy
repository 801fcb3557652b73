/**
 * `next_to`: whether a tile of a given type lies next to the player (north,
 * west, east, south, in that order) or, when asked, under the player.  The
 * source dereferences every neighbour query without a NULL check; the guarded
 * query is the one the rest of the model uses.
 */
module Nearby {
  import opened Wrappers
  import opened TileMap
  import opened Npc

  /** The fault the unguarded query runs into: reading the type of a missing tile. */
  datatype Fault = NullDereference

  /** One query of `next_to`: the tile it answered and the cell it asked about. */
  datatype Look = Look(tile: Option<Tile>, at: Pos)

  /** The query found a tile of the type sought. */
  predicate IsKind(t: Option<Tile>, kind: Kind)
  {
    t.Some? && t.value.kind == kind
  }

  /** `q` is a cell `next_to` looks at from `p`: a neighbour, or `p` itself when `on`. */
  predicate Near(p: Pos, q: Pos, on: bool)
  {
    q == North(p) || q == West(p) || q == East(p) || q == South(p) || (on && q == p)
  }

  /**
   * What `get_here` answers at a cell: the grid's tile on the map, nothing off
   * it.  `next_to` and the game step name cells by position, so this is
   * `TileMap.GetHere` taking a `Pos`.
   */
  function Seen(m: Map, q: Pos): (r: Option<Tile>)
    requires ValidMap(m)
    ensures InBounds(m, q.x, q.y) ==> r == At(m, q.x, q.y)
    ensures !InBounds(m, q.x, q.y) ==> r == None
  {
    GetHere(m, q.x, q.y)
  }

  /** The cells `next_to` looks at, in the order it tests them: north, west, east, south, then `p` when `on`. */
  function Cells(p: Pos, on: bool): (r: seq<Pos>)
    ensures |r| == if on then 5 else 4
  {
    if on then [North(p), West(p), East(p), South(p), p]
    else [North(p), West(p), East(p), South(p)]
  }

  /** The cells looked at are exactly the near ones. */
  lemma CellsAreNear(p: Pos, on: bool)
    ensures forall i :: 0 <= i < |Cells(p, on)| ==> Near(p, Cells(p, on)[i], on)
    ensures forall q :: Near(p, q, on) ==> q in Cells(p, on)
  {
  }

  /** The `i`-th query of `next_to`: north, west, east, south, then the cell itself. */
  function Query(m: Map, p: Pos, i: nat): Option<Tile>
    requires ValidMap(m) && i < 5
  {
    if i == 0 then GetNorth(m, p.x, p.y)
    else if i == 1 then GetWest(m, p.x, p.y)
    else if i == 2 then GetEast(m, p.x, p.y)
    else if i == 3 then GetSouth(m, p.x, p.y)
    else GetHere(m, p.x, p.y)
  }

  /** From an on-map cell, each query answers what the grid holds at its cell. */
  lemma QuerySeesGrid(m: Map, p: Pos, i: nat)
    requires ValidMap(m) && InBounds(m, p.x, p.y) && i < 5
    ensures Query(m, p, i) == Seen(m, Cells(p, true)[i])
  {
    if i == 0 {
      NorthSeesGrid(m, p);
    } else if i == 1 {
      WestSeesGrid(m, p);
    } else if i == 2 {
      EastSeesGrid(m, p);
    } else if i == 3 {
      SouthSeesGrid(m, p);
    } else {
      HereSeesGrid(m, p);
    }
  }

  /** The queries of `next_to`, one per cell of `Cells`. */
  function Looks(m: Map, p: Pos, on: bool): (r: seq<Look>)
    requires ValidMap(m)
    ensures |r| == |Cells(p, on)|
    ensures forall i :: 0 <= i < |r| ==> r[i] == Look(Query(m, p, i), Cells(p, on)[i])
  {
    var north := Look(Query(m, p, 0), North(p));
    var west := Look(Query(m, p, 1), West(p));
    var east := Look(Query(m, p, 2), East(p));
    var south := Look(Query(m, p, 3), South(p));
    if on then [north, west, east, south, Look(Query(m, p, 4), p)]
    else [north, west, east, south]
  }

  /** From an on-map cell each query of `next_to` answers exactly what the grid holds there. */
  lemma LooksSeeGrid(m: Map, p: Pos, on: bool)
    requires ValidMap(m) && InBounds(m, p.x, p.y)
    ensures forall i :: 0 <= i < |Looks(m, p, on)| ==> Looks(m, p, on)[i].tile == Seen(m, Looks(m, p, on)[i].at)
  {
    var ls := Looks(m, p, on);
    forall i | 0 <= i < |ls| ensures ls[i].tile == Seen(m, ls[i].at) {
      QuerySeesGrid(m, p, i);
      assert Cells(p, on)[i] == Cells(p, true)[i];
    }
  }

  lemma NorthSeesGrid(m: Map, p: Pos)
    requires ValidMap(m) && InBounds(m, p.x, p.y)
    ensures GetNorth(m, p.x, p.y) == Seen(m, North(p))
  {
  }

  lemma WestSeesGrid(m: Map, p: Pos)
    requires ValidMap(m) && InBounds(m, p.x, p.y)
    ensures GetWest(m, p.x, p.y) == Seen(m, West(p))
  {
  }

  lemma EastSeesGrid(m: Map, p: Pos)
    requires ValidMap(m) && InBounds(m, p.x, p.y)
    ensures GetEast(m, p.x, p.y) == Seen(m, East(p))
  {
  }

  lemma SouthSeesGrid(m: Map, p: Pos)
    requires ValidMap(m) && InBounds(m, p.x, p.y)
    ensures GetSouth(m, p.x, p.y) == Seen(m, South(p))
  {
  }

  lemma HereSeesGrid(m: Map, p: Pos)
    requires ValidMap(m) && InBounds(m, p.x, p.y)
    ensures GetHere(m, p.x, p.y) == Seen(m, p)
  {
  }

  /** The first query that found a tile of the type sought. */
  function FirstMatch(ls: seq<Look>, kind: Kind): (r: Option<Look>)
    ensures r.None? <==> forall i :: 0 <= i < |ls| ==> !IsKind(ls[i].tile, kind)
    ensures r.Some? ==> exists i :: 0 <= i < |ls| && ls[i] == r.value && IsKind(ls[i].tile, kind) &&
                                    forall j :: 0 <= j < i ==> !IsKind(ls[j].tile, kind)
    decreases |ls|
  {
    if |ls| == 0 then None
    else if IsKind(ls[0].tile, kind) then Some(ls[0])
    else
      var r := FirstMatch(ls[1..], kind);
      MatchInTail(ls, kind, r);
      r
  }

  lemma MatchInTail(ls: seq<Look>, kind: Kind, r: Option<Look>)
    requires |ls| > 0 && !IsKind(ls[0].tile, kind)
    requires r.None? <==> forall i :: 0 <= i < |ls| - 1 ==> !IsKind(ls[1..][i].tile, kind)
    requires r.Some? ==> exists i :: 0 <= i < |ls| - 1 && ls[1..][i] == r.value && IsKind(ls[1..][i].tile, kind) &&
                                     forall j :: 0 <= j < i ==> !IsKind(ls[1..][j].tile, kind)
    ensures r.None? <==> forall i :: 0 <= i < |ls| ==> !IsKind(ls[i].tile, kind)
    ensures r.Some? ==> exists i :: 0 <= i < |ls| && ls[i] == r.value && IsKind(ls[i].tile, kind) &&
                                    forall j :: 0 <= j < i ==> !IsKind(ls[j].tile, kind)
  {
    assert forall i :: 1 <= i < |ls| ==> ls[1..][i - 1] == ls[i];
    if r.Some? {
      var i :| 0 <= i < |ls| - 1 && ls[1..][i] == r.value && IsKind(ls[1..][i].tile, kind) &&
               forall j :: 0 <= j < i ==> !IsKind(ls[1..][j].tile, kind);
      assert ls[i + 1] == r.value;
    }
  }

  /** `next_to` with NULL-guarded queries: the first matching look, or nothing. */
  function NextTo(m: Map, p: Pos, kind: Kind, on: bool): (r: Option<Look>)
    requires ValidMap(m)
    ensures r.Some? ==> IsKind(r.value.tile, kind) && r.value.at in Cells(p, on)
  {
    FirstMatch(Looks(m, p, on), kind)
  }

  /**
   * From an on-map cell, the guarded `next_to` finds something exactly when
   * some cell it looks at holds a tile of the type, and what it returns is
   * that cell's tile.
   */
  lemma NextToFinds(m: Map, p: Pos, kind: Kind, on: bool)
    requires ValidMap(m) && InBounds(m, p.x, p.y)
    ensures NextTo(m, p, kind, on).None? <==> forall q :: Near(p, q, on) ==> !IsKind(Seen(m, q), kind)
    ensures NextTo(m, p, kind, on).Some? ==>
              var l := NextTo(m, p, kind, on).value;
              Near(p, l.at, on) && l.tile == Seen(m, l.at) && IsKind(l.tile, kind)
  {
    if NextTo(m, p, kind, on).Some? {
      NextToReadsGrid(m, p, kind, on);
    } else {
      NextToMissesAll(m, p, kind, on);
    }
  }

  lemma NextToReadsGrid(m: Map, p: Pos, kind: Kind, on: bool)
    requires ValidMap(m) && InBounds(m, p.x, p.y)
    requires NextTo(m, p, kind, on).Some?
    ensures var l := NextTo(m, p, kind, on).value;
            Near(p, l.at, on) && l.tile == Seen(m, l.at) && IsKind(l.tile, kind)
  {
    var ls := Looks(m, p, on);
    LooksSeeGrid(m, p, on);
    CellsAreNear(p, on);
    var i :| 0 <= i < |ls| && ls[i] == NextTo(m, p, kind, on).value;
  }

  lemma NextToMissesAll(m: Map, p: Pos, kind: Kind, on: bool)
    requires ValidMap(m) && InBounds(m, p.x, p.y)
    requires NextTo(m, p, kind, on).None?
    ensures forall q :: Near(p, q, on) ==> !IsKind(Seen(m, q), kind)
  {
    MissesEachCell(m, p, kind, on);
  }

  /** The guarded query found nothing, so none of the cells it reads holds the type. */
  lemma MissesEachCell(m: Map, p: Pos, kind: Kind, on: bool)
    requires ValidMap(m) && InBounds(m, p.x, p.y)
    requires NextTo(m, p, kind, on).None?
    ensures !IsKind(Seen(m, North(p)), kind) && !IsKind(Seen(m, West(p)), kind)
    ensures !IsKind(Seen(m, East(p)), kind) && !IsKind(Seen(m, South(p)), kind)
    ensures on ==> !IsKind(Seen(m, p), kind)
  {
    var ls := Looks(m, p, on);
    LooksSeeGrid(m, p, on);
    assert !IsKind(ls[0].tile, kind) && !IsKind(ls[1].tile, kind);
    assert !IsKind(ls[2].tile, kind) && !IsKind(ls[3].tile, kind);
    if on {
      assert !IsKind(ls[4].tile, kind);
    }
  }

  /**
   * The test chain of `next_to` as written: each query's type is read without
   * checking the pointer, so a missing tile before the first match faults.
   */
  function ScanAsWritten(ls: seq<Look>, kind: Kind): (r: Result<Option<Look>, Fault>)
    ensures r.Success? ==> r.value == FirstMatch(ls, kind)
    ensures (forall i :: 0 <= i < |ls| ==> ls[i].tile.Some?) ==> r.Success?
    ensures |ls| > 0 && ls[0].tile.None? ==> r.Failure?
    decreases |ls|
  {
    if |ls| == 0 then Success(None)
    else if ls[0].tile.None? then Failure(NullDereference)
    else if IsKind(ls[0].tile, kind) then Success(Some(ls[0]))
    else
      assert forall i :: 0 <= i < |ls| - 1 ==> ls[1..][i] == ls[i + 1];
      ScanAsWritten(ls[1..], kind)
  }

  /** `next_to` as written. */
  function NextToAsWritten(m: Map, p: Pos, kind: Kind, on: bool): (r: Result<Option<Look>, Fault>)
    requires ValidMap(m)
    ensures r.Success? ==> r.value == NextTo(m, p, kind, on)
  {
    ScanAsWritten(Looks(m, p, on), kind)
  }

  /**
   * The player standing with no tile to the north (on the top row, say) makes
   * the code as written read through a NULL pointer for every type sought,
   * while the guarded query goes on to the west, east and south.
   */
  lemma EmptyNorthFaults(m: Map, p: Pos, kind: Kind, on: bool)
    requires ValidMap(m) && GetNorth(m, p.x, p.y).None?
    ensures NextToAsWritten(m, p, kind, on).Failure?
    ensures NextTo(m, p, kind, on) == FirstMatch(Looks(m, p, on)[1..], kind)
  {
    var ls := Looks(m, p, on);
    assert ls[0].tile == Query(m, p, 0);
  }

  /**
   * When every query `next_to` makes finds a tile, the code as written reads
   * no NULL pointer and agrees with the guarded query.
   */
  lemma FullSurroundingsAgree(m: Map, p: Pos, kind: Kind, on: bool)
    requires ValidMap(m)
    requires GetNorth(m, p.x, p.y).Some? && GetWest(m, p.x, p.y).Some?
    requires GetEast(m, p.x, p.y).Some? && GetSouth(m, p.x, p.y).Some?
    requires on ==> GetHere(m, p.x, p.y).Some?
    ensures NextToAsWritten(m, p, kind, on) == Success(NextTo(m, p, kind, on))
  {
    LooksAllFound(m, p, on);
    ScanAgrees(Looks(m, p, on), kind);
  }

  /** With every query answered, the unguarded scan succeeds with the first match. */
  lemma ScanAgrees(ls: seq<Look>, kind: Kind)
    requires forall i :: 0 <= i < |ls| ==> ls[i].tile.Some?
    ensures ScanAsWritten(ls, kind) == Success(FirstMatch(ls, kind))
  {
  }

  lemma LooksAllFound(m: Map, p: Pos, on: bool)
    requires ValidMap(m)
    requires GetNorth(m, p.x, p.y).Some? && GetWest(m, p.x, p.y).Some?
    requires GetEast(m, p.x, p.y).Some? && GetSouth(m, p.x, p.y).Some?
    requires on ==> GetHere(m, p.x, p.y).Some?
    ensures forall i :: 0 <= i < |Looks(m, p, on)| ==> Looks(m, p, on)[i].tile.Some?
  {
    var ls := Looks(m, p, on);
    forall i | 0 <= i < |ls| ensures ls[i].tile.Some? {
      QueryFound(m, p, on, i);
    }
  }

  lemma QueryFound(m: Map, p: Pos, on: bool, i: nat)
    requires ValidMap(m)
    requires GetNorth(m, p.x, p.y).Some? && GetWest(m, p.x, p.y).Some?
    requires GetEast(m, p.x, p.y).Some? && GetSouth(m, p.x, p.y).Some?
    requires on ==> GetHere(m, p.x, p.y).Some?
    requires i < |Cells(p, on)|
    ensures Query(m, p, i).Some?
  {
    if i == 0 {
      assert Query(m, p, i) == GetNorth(m, p.x, p.y);
    } else if i == 1 {
      assert Query(m, p, i) == GetWest(m, p.x, p.y);
    } else if i == 2 {
      assert Query(m, p, i) == GetEast(m, p.x, p.y);
    } else if i == 3 {
      assert Query(m, p, i) == GetSouth(m, p.x, p.y);
    } else {
      assert Query(m, p, i) == GetHere(m, p.x, p.y);
    }
  }
}
