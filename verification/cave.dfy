/** The fixed cave of Hunt the Wumpus: constants, the room graph, and the plain
    value types of the game (rooms, game states, narration messages). */
module Cave {

  const NumRooms: nat := 20
  const ConnectionsPerRoom: nat := 3
  const NumBats: nat := 2
  const NumPits: nat := 2
  const ArrowRange: nat := 3
  const NumArrows: nat := 5

  /** Row i lists the structural indices of the three rooms that room i
      connects to by a tunnel (a dodecahedron). */
  const RoomConnections: seq<seq<nat>> := [
    [1, 4, 5],    [2, 0, 7],    [3, 1, 9],    [4, 2, 11],
    [0, 3, 13],   [6, 14, 0],   [7, 5, 15],   [8, 6, 1],
    [9, 7, 16],   [10, 8, 2],   [11, 9, 17],  [12, 10, 3],
    [13, 11, 18], [14, 12, 4],  [5, 13, 19],  [16, 19, 6],
    [17, 15, 8],  [18, 16, 10], [19, 17, 12], [15, 18, 14]
  ]

  /** A room: its display label, its three hazard flags and the structural
      indices of its neighbours (the source keeps pointers instead). */
  datatype Room = Room(number: int, wumpus: bool, bat: bool, pit: bool, adjacent: seq<nat>)

  datatype GameState = None | PlayerEaten | PlayerFell | PlayerShot | WumpusDead | PlayerQuit

  /** The fixed narration lines, one tag per line of text. */
  datatype Message =
    | SmellWumpus        // the wumpus is in an adjacent room
    | HearFlapping       // a bat is in an adjacent room
    | FeelBreeze         // a pit is in an adjacent room
    | WumpusSlain
    | EatenByWumpus
    | CarriedAwayByBat
    | FellIntoPit
    | HitByOwnArrow
    | FleeCave
    | WumpusMoving

  /** A room as built by `Room(number)`: no hazard of any kind. */
  function NewRoom(number: int, adjacent: seq<nat>): (r: Room)
    ensures r.number == number && r.adjacent == adjacent
    ensures !r.wumpus && !r.bat && !r.pit
  {
    Room(number, false, false, false, adjacent)
  }

  predicate IsRoom(i: int) { 0 <= i < NumRooms }

  /** Case split on a room index, so that each row of the table is a literal. */
  lemma RoomCases(i: int)
    requires IsRoom(i)
    ensures i == 0 || i == 1 || i == 2 || i == 3 || i == 4 || i == 5 || i == 6
         || i == 7 || i == 8 || i == 9 || i == 10 || i == 11 || i == 12 || i == 13
         || i == 14 || i == 15 || i == 16 || i == 17 || i == 18 || i == 19
  {
  }

  /** The facts about one row of the table, room by room. */
  lemma Row(i: int)
    requires IsRoom(i)
    ensures |RoomConnections| == NumRooms
    ensures |RoomConnections[i]| == ConnectionsPerRoom
    ensures forall k :: 0 <= k < ConnectionsPerRoom ==> IsRoom(RoomConnections[i][k])
    ensures RoomConnections[i][0] != RoomConnections[i][1]
    ensures RoomConnections[i][0] != RoomConnections[i][2]
    ensures RoomConnections[i][1] != RoomConnections[i][2]
    ensures i !in RoomConnections[i]
  {
    RoomCases(i);
  }

  /** Every row has three entries, each a valid room index. */
  lemma ConnectionsInRange()
    ensures |RoomConnections| == NumRooms
    ensures forall i :: IsRoom(i) ==> |RoomConnections[i]| == ConnectionsPerRoom
    ensures forall i, k :: IsRoom(i) && 0 <= k < ConnectionsPerRoom ==> IsRoom(RoomConnections[i][k])
  {
    forall i | IsRoom(i)
      ensures |RoomConnections[i]| == ConnectionsPerRoom
      ensures forall k :: 0 <= k < ConnectionsPerRoom ==> IsRoom(RoomConnections[i][k])
    {
      RoomCases(i);
    }
  }

  /** The three neighbours of a room are pairwise distinct, and no room is
      its own neighbour. */
  lemma ConnectionsDistinct()
    ensures forall i :: IsRoom(i) ==>
      && RoomConnections[i][0] != RoomConnections[i][1]
      && RoomConnections[i][0] != RoomConnections[i][2]
      && RoomConnections[i][1] != RoomConnections[i][2]
      && i !in RoomConnections[i]
  {
    ConnectionsInRange();
    forall i | IsRoom(i)
      ensures RoomConnections[i][0] != RoomConnections[i][1]
      ensures RoomConnections[i][0] != RoomConnections[i][2]
      ensures RoomConnections[i][1] != RoomConnections[i][2]
      ensures i !in RoomConnections[i]
    {
      RoomCases(i);
    }
  }

  /** Every tunnel leads back: j is a neighbour of i exactly when i is a
      neighbour of j. */
  lemma ConnectionsSymmetric()
    ensures forall i, j :: IsRoom(i) && IsRoom(j) ==>
      (j in RoomConnections[i] <==> i in RoomConnections[j])
  {
    ConnectionsInRange();
    forall i, k | IsRoom(i) && 0 <= k < ConnectionsPerRoom
      ensures i in RoomConnections[RoomConnections[i][k]]
    {
      RoomCases(i);
    }
    forall i, j | IsRoom(i) && IsRoom(j) && j in RoomConnections[i]
      ensures i in RoomConnections[j]
    {
      var k :| 0 <= k < |RoomConnections[i]| && RoomConnections[i][k] == j;
    }
  }

  /** The cave has no triangle: two adjacent rooms share no neighbour. */
  lemma ConnectionsTriangleFree()
    ensures forall i, j, m ::
              IsRoom(i) && j in RoomConnections[i] && m in RoomConnections[i]
              ==> IsRoom(j) && m !in RoomConnections[j]
  {
    ConnectionsInRange();
    forall i, j, m | IsRoom(i) && j in RoomConnections[i] && m in RoomConnections[i]
      ensures IsRoom(j) && m !in RoomConnections[j]
    {
      TriangleFreeRow(i);
    }
  }

  /** The triangle-freeness of one row, entry by entry. */
  lemma TriangleFreeRow(i: int)
    requires IsRoom(i)
    ensures |RoomConnections[i]| == ConnectionsPerRoom
    ensures forall a, b :: 0 <= a < ConnectionsPerRoom && 0 <= b < ConnectionsPerRoom ==>
      IsRoom(RoomConnections[i][a]) && RoomConnections[i][b] !in RoomConnections[RoomConnections[i][a]]
  {
    RoomCases(i);
  }

  /** The player, the wumpus, the bats and the pits fit in distinct rooms. */
  lemma PlacementFits()
    ensures 2 + NumBats + NumPits <= NumRooms
  {
  }

  /** The shot-target array is built with `ConnectionsPerRoom` slots and read
      for `ArrowRange` hops, so the two constants must agree. */
  lemma ArrowRangeMatchesConnections()
    ensures ArrowRange == ConnectionsPerRoom
  {
  }
}
