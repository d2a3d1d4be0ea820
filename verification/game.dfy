/** The rules engine of one hunt: the rooms of the cave with their labels and
    hazards, where the player and the wumpus are, the arrows left and how the
    hunt stands, changed in place by the turn actions. */
module Wumpus {
  import opened Cave
  import opened Rules
  import opened RandomOracle

  /** An unset room reference (the source's null pointer). */
  const NoRoom: int := -1

  class Game {
    const rooms: array<Room>
    /** The source of randomness every draw of the game goes to. */
    const rng: Rng
    var playerRoom: int
    var wumpusRoom: int
    var state: GameState
    var arrows: int
    /** Everything written to the output stream, oldest first. */
    var log: seq<Message>

    /** The cave is well-formed and the room references are rooms or unset. */
    ghost predicate Valid()
      reads this`playerRoom, this`wumpusRoom, rooms
    {
      && WellFormed(rooms[..])
      && NoRoom <= playerRoom < NumRooms
      && NoRoom <= wumpusRoom < NumRooms
    }

    /** A hunt is set up: the player is in a room and the hazard invariant
        holds, with the wumpus flag on `wumpusRoom` alone. */
    ghost predicate Ready()
      reads this`playerRoom, this`wumpusRoom, rooms
    {
      && Valid()
      && 0 <= playerRoom
      && HazardsPlaced(rooms[..], wumpusRoom)
    }

    /** `Game::Game`: room i gets label i + 1 and the neighbours of row i of
        the tunnel table; no hazards yet, and no player or wumpus room. */
    constructor (rng: Rng)
      ensures Valid() && fresh(rooms) && this.rng == rng
      ensures forall i :: 0 <= i < NumRooms ==> rooms[i] == NewRoom(i + 1, RoomConnections[i])
      ensures playerRoom == NoRoom && wumpusRoom == NoRoom
      ensures state == None && arrows == NumArrows && log == []
    {
      var rs := new Room[NumRooms];
      var i := 0;
      while i < NumRooms
        invariant 0 <= i <= NumRooms
        invariant forall j :: 0 <= j < i ==> rs[j] == NewRoom(j + 1, RoomConnections[j])
      {
        rs[i] := NewRoom(i + 1, RoomConnections[i]);
        i := i + 1;
      }
      rooms := rs;
      this.rng := rng;
      playerRoom, wumpusRoom := NoRoom, NoRoom;
      state, arrows, log := None, NumArrows, [];
      new;
      InitialCaveWellFormed(rooms[..]);
    }

    // ------------------------------------------------------ per-hunt setup

    /** `init_hunt`: a fresh hunt on a freshly labelled cave. The labels are
        rearranged, every neighbour list ends sorted by label, and the hazards
        and the player are placed on distinct drawn rooms. */
    method InitHunt() returns (ghost drawn: seq<nat>)
      requires Valid()
      modifies this`state, this`arrows, this`playerRoom, this`wumpusRoom, rooms, rng
      ensures Ready()
      ensures state == None && arrows == NumArrows
      ensures multiset(Labels(rooms[..])) == multiset(Labels(old(rooms[..])))
      ensures NeighboursSorted(rooms[..])
      ensures PlacedAt(rooms[..], drawn) && playerRoom == drawn[0] && wumpusRoom == drawn[1]
    {
      state := None;
      arrows := NumArrows;
      ResetRooms();
      SameLayoutWellFormed(old(rooms[..]), rooms[..]);
      ShuffleRoomNumbers();
      ghost var shuffled := rooms[..];
      drawn := PlacePlayerAndHazards();
      SameLayoutWellFormed(shuffled, rooms[..]);
      SameLayoutSorted(shuffled, rooms[..]);
    }

    /** `reset_rooms`: clears every hazard flag and nothing else. */
    method ResetRooms()
      requires Valid()
      modifies rooms
      ensures Valid()
      ensures NoHazards(rooms[..]) && SameLayout(old(rooms[..]), rooms[..])
    {
      var i := 0;
      while i < rooms.Length
        invariant 0 <= i <= rooms.Length
        invariant SameLayout(old(rooms[..]), rooms[..])
        invariant forall j :: 0 <= j < i ==> !rooms[j].wumpus && !rooms[j].bat && !rooms[j].pit
      {
        rooms[i] := rooms[i].(wumpus := false, bat := false, pit := false);
        i := i + 1;
      }
      SameLayoutWellFormed(old(rooms[..]), rooms[..]);
    }

    /** `shuffle_room_numbers`: swaps the label of each room i with that of a
        room drawn from [i, NumRooms), then sorts every neighbour list by the
        new labels. The labels are rearranged and nothing else changes but
        the order of the neighbour lists. */
    method ShuffleRoomNumbers()
      requires Valid()
      modifies rooms, rng
      ensures Valid()
      ensures multiset(Labels(rooms[..])) == multiset(Labels(old(rooms[..])))
      ensures SameHazards(old(rooms[..]), rooms[..]) && NeighboursSorted(rooms[..])
    {
      ghost var rs0 := rooms[..];
      SwapRoomNumbers();
      RelabellingWellFormed(rs0, rooms[..]);
      ghost var swapped := rooms[..];
      SortAdjacentRooms();
      SortedCaveFacts(swapped);
    }

    /** The swapping loop of `shuffle_room_numbers`: label i trades places
        with a label drawn from [i, NumRooms). */
    method SwapRoomNumbers()
      requires rooms.Length == NumRooms && IsLabelling(Labels(rooms[..]))
      modifies rooms, rng
      ensures IsLabelling(Labels(rooms[..])) && Relabelling(old(rooms[..]), rooms[..])
    {
      ghost var rs0 := rooms[..];
      var i := 0;
      while i < NumRooms
        invariant 0 <= i <= NumRooms
        invariant IsLabelling(Labels(rooms[..])) && Relabelling(rs0, rooms[..])
      {
        var j := rng.Random(i, NumRooms);
        SwapKeepsRelabelling(rs0, rooms[..], i, j);
        var a, b := rooms[i].number, rooms[j].number;
        rooms[i] := rooms[i].(number := b);
        rooms[j] := rooms[j].(number := a);
        i := i + 1;
      }
    }

    /** `sort_adjacent_rooms`: puts every neighbour list in ascending label
        order. */
    method SortAdjacentRooms()
      requires Valid()
      modifies rooms
      ensures Valid()
      ensures rooms[..] == SortedCave(old(rooms[..]))
    {
      ghost var rs0 := rooms[..];
      var ls := Labels(rooms[..]);
      forall j | 0 <= j < NumRooms
        ensures |rooms[j].adjacent| == ConnectionsPerRoom && LabelsDefined(rooms[j].adjacent, ls)
      {
        assert IsNeighbourList(rs0[j].adjacent, j);
      }
      SortEachRoom(ls);
      SortedCaveIs(rs0, rooms[..]);
      SortedCaveFacts(rs0);
    }

    /** The loop of `sort_adjacent_rooms`: sorts the rooms one by one. */
    method SortEachRoom(ls: seq<int>)
      requires rooms.Length == NumRooms
      requires forall j :: 0 <= j < NumRooms ==>
        |rooms[j].adjacent| == ConnectionsPerRoom && LabelsDefined(rooms[j].adjacent, ls)
      modifies rooms
      ensures forall j :: 0 <= j < NumRooms ==> rooms[j] == SortedRoom(old(rooms[j]), ls)
    {
      ghost var rs0 := rooms[..];
      var i := 0;
      while i < NumRooms
        invariant 0 <= i <= NumRooms
        invariant forall j :: 0 <= j < i ==> rooms[j] == SortedRoom(rs0[j], ls)
        invariant forall j :: i <= j < NumRooms ==> rooms[j] == rs0[j]
      {
        rooms[i] := SortedRoom(rooms[i], ls);
        i := i + 1;
      }
    }

    /** `place_player_and_hazards`: draws 2 + NumBats + NumPits distinct
        rooms; the first is the player's, the second the wumpus's, then the
        bats, then the pits. */
    method PlacePlayerAndHazards() returns (ghost drawn: seq<nat>)
      requires Valid() && NoHazards(rooms[..])
      modifies this`playerRoom, this`wumpusRoom, rooms, rng
      ensures Ready()
      ensures PlacedAt(rooms[..], drawn) && playerRoom == drawn[0] && wumpusRoom == drawn[1]
      ensures SameLayout(old(rooms[..]), rooms[..])
    {
      ghost var rs0 := rooms[..];
      assert WellFormed(rs0);
      var locations := DrawLocations();
      PlacedNothing(rs0, locations);

      var index := 0;
      playerRoom := locations[index];
      index := index + 1;
      wumpusRoom := locations[index];
      PlaceNext(rs0, rooms[..], locations, index);
      rooms[wumpusRoom] := rooms[wumpusRoom].(wumpus := true);
      index := index + 1;
      while index < 2 + NumBats
        modifies rooms
        invariant 2 <= index <= 2 + NumBats
        invariant PlacedUpTo(rs0, rooms[..], locations, index)
      {
        PlaceNext(rs0, rooms[..], locations, index);
        rooms[locations[index]] := rooms[locations[index]].(bat := true);
        index := index + 1;
      }
      while index < 2 + NumBats + NumPits
        modifies rooms
        invariant 2 + NumBats <= index <= 2 + NumBats + NumPits
        invariant PlacedUpTo(rs0, rooms[..], locations, index)
      {
        PlaceNext(rs0, rooms[..], locations, index);
        rooms[locations[index]] := rooms[locations[index]].(pit := true);
        index := index + 1;
      }
      drawn := locations;
      PlacementDone(rs0, rooms[..], drawn);
      SameLayoutWellFormed(rs0, rooms[..]);
    }

    /** The drawing loop of `place_player_and_hazards`: each room is drawn
        from the rooms not drawn before it. */
    method DrawLocations() returns (locations: seq<nat>)
      modifies rng
      ensures |locations| == 2 + NumBats + NumPits && Distinct(locations)
      ensures forall k :: 0 <= k < |locations| ==> IsRoom(locations[k])
    {
      locations := [];
      var i := 0;
      while i < 2 + NumBats + NumPits
        invariant 0 <= i <= 2 + NumBats + NumPits && |locations| == i
        invariant Distinct(locations)
        invariant forall k :: 0 <= k < i ==> IsRoom(locations[k])
      {
        RoomLeft(locations, 0, NumRooms);
        var r := rng.RandomExcluding(0, NumRooms, locations);
        locations := locations + [r];
        i := i + 1;
      }
    }

    // -------------------------------------------------------- turn actions

    /** `is_hunt_over`: the hunt has reached one of its ends. */
    predicate IsHuntOver()
      reads this`state
      ensures IsHuntOver() <==>
        state in {PlayerEaten, PlayerFell, PlayerShot, WumpusDead, PlayerQuit}
    {
      state != None
    }

    /** `inform_player_of_hazards`: one warning per kind of hazard in a room
        next to the player's, in the order wumpus, bat, pit. */
    method InformPlayerOfHazards()
      requires Valid() && 0 <= playerRoom
      modifies this`log
      ensures log == old(log) + Warnings(rooms[..], playerRoom)
    {
      var rs := rooms[..];
      var adj := rs[playerRoom].adjacent;
      assert IsNeighbourList(adj, playerRoom);
      var wumpus, bat, pit := false, false, false;
      var k := 0;
      while k < |adj|
        invariant 0 <= k <= |adj|
        invariant wumpus == SomeHas(rs, adj[..k], Wumpus)
        invariant bat == SomeHas(rs, adj[..k], Bat)
        invariant pit == SomeHas(rs, adj[..k], Pit)
        invariant log == old(log)
      {
        SomeHasExtend(rs, adj, k, Wumpus);
        SomeHasExtend(rs, adj, k, Bat);
        SomeHasExtend(rs, adj, k, Pit);
        var room := rs[adj[k]];
        if room.wumpus {
          wumpus := true;
        }
        if room.bat {
          bat := true;
        }
        if room.pit {
          pit := true;
        }
        k := k + 1;
      }
      assert adj[..k] == adj;
      var lines: seq<Message> := [];
      if wumpus {
        lines := lines + [SmellWumpus];
      }
      if bat {
        lines := lines + [HearFlapping];
      }
      if pit {
        lines := lines + [FeelBreeze];
      }
      log := log + lines;
    }

    /** `end_hunt`: the closing line of the end the hunt reached. Calling it
        while the hunt is on is a caller error. */
    method EndHunt()
      requires IsHuntOver()
      modifies this`log
      ensures log == old(log) + [EndMessage(state)]
    {
      log := log + [EndMessage(state)];
    }

    /** `target_is_adjacent`: some neighbour of the player's room carries the
        label `target`. */
    method TargetIsAdjacent(target: int) returns (adjacent: bool)
      requires Valid() && 0 <= playerRoom
      ensures adjacent <==> IsAdjacentLabel(rooms[..], playerRoom, target)
    {
      var adj := rooms[playerRoom].adjacent;
      var k := 0;
      while k < |adj|
        invariant 0 <= k <= |adj|
        invariant forall j :: 0 <= j < k ==> rooms[adj[j]].number != target
      {
        if rooms[adj[k]].number == target {
          return true;
        }
        k := k + 1;
      }
      return false;
    }

    /** `can_move`: the player may walk to the room labelled `target`. */
    method CanMove(target: int) returns (ok: bool)
      requires Valid() && 0 <= playerRoom
      ensures ok <==> IsAdjacentLabel(rooms[..], playerRoom, target)
    {
      ok := TargetIsAdjacent(target);
    }

    /** `can_shoot`: an arrow is left and the first target is next door. */
    method CanShoot(targets: seq<int>) returns (ok: bool)
      requires Valid() && 0 <= playerRoom && |targets| == ArrowRange
      ensures ok <==> arrows > 0 && IsAdjacentLabel(rooms[..], playerRoom, targets[0])
    {
      if arrows <= 0 {
        return false;
      }
      ok := TargetIsAdjacent(targets[0]);
    }

    /** How the hazards resolved along `visited`, the rooms the player was
        in one after the other: the first is the room entered, every room
        before the last held a bat and neither the wumpus nor a pit and
        dropped the player into the next, with one message per drop, and the
        last room ends the hunt by the wumpus (checked first) or a pit, or
        holds no hazard at all. */
    ghost predicate HazardsResolved(visited: seq<int>, state0: GameState, log0: seq<Message>)
      reads this`playerRoom, this`wumpusRoom, this`state, this`log, rooms
      requires Ready()
    {
      && |visited| >= 1
      && (forall k :: 0 <= k < |visited| ==> IsRoom(visited[k]))
      && visited[|visited| - 1] == playerRoom
      && (forall k :: 0 <= k < |visited| - 1 ==>
            rooms[visited[k]].bat && !rooms[visited[k]].wumpus && !rooms[visited[k]].pit)
      && log == log0 + CarriedAway(|visited| - 1)
      && (if rooms[playerRoom].wumpus then state == PlayerEaten
          else if rooms[playerRoom].pit then state == PlayerFell
          else state == state0 && !rooms[playerRoom].bat)
    }

    /** `move`: enters the neighbour labelled `target`, if there is one, and
        resolves the hazards of the room the player is then in. `visited`
        starts with the room entered. */
    method Move(target: int) returns (ghost visited: seq<int>)
      requires Ready()
      modifies this`playerRoom, this`state, this`log, rng
      ensures Ready() && |visited| >= 1 && IsRoom(visited[0])
      ensures IsAdjacentLabel(old(rooms[..]), old(playerRoom), target) ==>
        visited[0] in rooms[old(playerRoom)].adjacent && rooms[visited[0]].number == target
      ensures !IsAdjacentLabel(old(rooms[..]), old(playerRoom), target) ==> visited[0] == old(playerRoom)
      ensures HazardsResolved(visited, old(state), old(log))
    {
      var next := NeighbourLabelled(target);
      playerRoom := next;
      visited := CheckRoomHazards();
    }

    /** The loop of `move`: the neighbour of the player's room labelled
        `target`, or the player's own room when no neighbour is. */
    method NeighbourLabelled(target: int) returns (next: int)
      requires Valid() && 0 <= playerRoom
      ensures IsRoom(next)
      ensures IsAdjacentLabel(rooms[..], playerRoom, target) ==>
        next in rooms[playerRoom].adjacent && rooms[next].number == target
      ensures !IsAdjacentLabel(rooms[..], playerRoom, target) ==> next == playerRoom
    {
      ghost var rs := rooms[..];
      var adj := rooms[playerRoom].adjacent;
      assert IsNeighbourList(adj, playerRoom);
      next := playerRoom;
      var k := 0;
      while k < |adj|
        invariant 0 <= k <= |adj| && IsRoom(next)
        invariant FindLabel(rs, adj[..k], target) < 0 ==> next == playerRoom
        invariant FindLabel(rs, adj[..k], target) >= 0 ==> next in adj && rs[next].number == target
      {
        FindLabelExtend(rs, adj, k, target);
        if rooms[adj[k]].number == target {
          next := adj[k];
        }
        k := k + 1;
      }
      assert adj[..k] == adj;
    }

    /** `quit`: the player flees; the hunt ends whatever its state. */
    method Quit()
      modifies this`state
      ensures state == PlayerQuit
    {
      state := PlayerQuit;
    }

    /** `check_room_hazards`: the wumpus eats the player, else a pit swallows
        them, else a bat drops them in a room drawn from the whole cave and
        the check repeats there. */
    method CheckRoomHazards() returns (ghost visited: seq<int>)
      requires Ready()
      modifies this`playerRoom, this`state, this`log, rng
      ensures Ready()
      ensures |visited| >= 1 && visited[0] == old(playerRoom)
      ensures HazardsResolved(visited, old(state), old(log))
    {
      visited := [playerRoom];
      while true
        invariant Ready() && state == old(state)
        invariant |visited| >= 1 && visited[0] == old(playerRoom)
        invariant forall k :: 0 <= k < |visited| ==> IsRoom(visited[k])
        invariant visited[|visited| - 1] == playerRoom
        invariant forall k :: 0 <= k < |visited| - 1 ==>
          rooms[visited[k]].bat && !rooms[visited[k]].wumpus && !rooms[visited[k]].pit
        invariant log == old(log) + CarriedAway(|visited| - 1)
        decreases |rng.draws|, if rooms[playerRoom].bat then 1 else 0
      {
        if rooms[playerRoom].wumpus {
          state := PlayerEaten;
          return;
        }
        if rooms[playerRoom].pit {
          state := PlayerFell;
          return;
        }
        if rooms[playerRoom].bat {
          log := log + [CarriedAwayByBat];
          playerRoom := DropRoom();
          visited := visited + [playerRoom];
          continue;
        }
        break;
      }
    }

    /** The room a bat drops the player in: `random(0, NumRooms)`. Once the
        draws run out, the drop is taken to land in a room without a bat,
        which ends the chain. */
    method DropRoom() returns (r: int)
      requires Ready()
      modifies rng
      ensures IsRoom(r)
      ensures |rng.draws| < |old(rng.draws)| || (rng.draws == [] && !rooms[r].bat)
    {
      if rng.Exhausted() {
        var rs := rooms[..];
        var noBat := x => 0 <= x < |rs| && !rs[x].bat;
        SomeRoomWithoutBat(rs, wumpusRoom);
        ghost var w :| 0 <= w < |rs| && !rs[w].bat;
        assert noBat(w);
        r := rng.RandomIf(0, NumRooms, noBat);
      } else {
        r := rng.Random(0, NumRooms);
      }
    }

    /** The label the arrow may not return to: that of the room it just left,
        or 0 (no label) on the first hop. */
    function PreviousLabel(previous: int): int
      reads rooms
      requires previous == NoRoom || 0 <= previous < rooms.Length
    {
      if previous == NoRoom then 0 else rooms[previous].number
    }

    /** `get_next_room_for_arrow_flight`: the neighbour labelled `target` if
        there is one and `target` is not the label just left; otherwise a
        neighbour drawn among those whose label is not the one just left. */
    method NextRoomForArrowFlight(previous: int, current: int, target: int) returns (next: int)
      requires Valid() && IsRoom(current) && (previous == NoRoom || IsRoom(previous))
      modifies rng
      ensures IsRoom(next) && IsHop(rooms[..], previous, current, next, target)
      ensures rooms[next].number != PreviousLabel(previous)
    {
      var previousNumber := PreviousLabel(previous);
      var adj := rooms[current].adjacent;
      if previousNumber != target {
        var k := 0;
        while k < |adj|
          invariant 0 <= k <= |adj|
          invariant forall j :: 0 <= j < k ==> rooms[adj[j]].number != target
        {
          if rooms[adj[k]].number == target {
            return adj[k];
          }
          k := k + 1;
        }
      }
      var labels := [rooms[adj[0]].number, rooms[adj[1]].number, rooms[adj[2]].number];
      forall a, b | 0 <= a < b < |labels|
        ensures labels[a] != labels[b]
      {
        if labels[a] == labels[b] {
          SameLabelSameRoom(rooms[..], adj[a], adj[b]);
        }
      }
      FallbackHasCandidates(labels, previousNumber);
      var acceptable := x => 0 <= x < |labels| && labels[x] != previousNumber;
      ghost var w :| 0 <= w < |labels| && labels[w] != previousNumber;
      assert acceptable(w);
      var x := rng.RandomIf(0, ConnectionsPerRoom, acceptable);
      next := adj[x];
    }

    /** How a missed shot ends: the wumpus flag moved from `w0` to a
        neighbour of it, one message, and the player eaten iff the wumpus
        walked into the player's room. */
    ghost predicate WumpusMoved(w0: int, rooms0: seq<Room>, state0: GameState, log0: seq<Message>)
      reads this, rooms
    {
      && |rooms0| == rooms.Length
      && 0 <= w0 < |rooms0|
      && wumpusRoom in rooms0[w0].adjacent
      && (forall i :: 0 <= i < rooms.Length ==> rooms[i] == rooms0[i].(wumpus := i == wumpusRoom))
      && log == log0 + [WumpusMoving]
      && state == (if wumpusRoom == playerRoom then PlayerEaten else state0)
    }

    /** `shoot`: pays one arrow, then flies it up to ArrowRange hops from
        the player's room. The first room with the wumpus ends the hunt with
        the wumpus dead; a room labelled like the player's ends it with the
        player shot; a flight of the full range that does neither makes the
        wumpus move. `trail` is the player's room followed by the rooms the
        arrow entered. */
    method Shoot(targets: seq<int>) returns (ghost trail: seq<nat>)
      requires Ready() && |targets| == ArrowRange
      modifies this`arrows, this`state, this`log, this`wumpusRoom, rooms, rng
      ensures Ready()
      ensures arrows == old(arrows) - 1
      ensures 2 <= |trail| <= ArrowRange + 1 && trail[0] == playerRoom
      ensures IsArrowFlight(old(rooms[..]), trail, targets)
      ensures old(wumpusRoom) !in trail[1..|trail| - 1] && playerRoom !in trail[1..|trail| - 1]
      ensures trail[|trail| - 1] == old(wumpusRoom) ==>
        && state == WumpusDead && log == old(log)
        && wumpusRoom == old(wumpusRoom) && rooms[..] == old(rooms[..])
      ensures trail[|trail| - 1] != old(wumpusRoom) && trail[|trail| - 1] == playerRoom ==>
        && state == PlayerShot && log == old(log)
        && wumpusRoom == old(wumpusRoom) && rooms[..] == old(rooms[..])
      ensures trail[|trail| - 1] != old(wumpusRoom) && trail[|trail| - 1] != playerRoom ==>
        |trail| == ArrowRange + 1 && WumpusMoved(old(wumpusRoom), old(rooms[..]), old(state), old(log))
    {
      arrows := arrows - 1;
      var hit;
      trail, hit := FlyArrow(targets);
      if !hit {
        MoveWumpus();
      }
    }

    /** The flight loop of `shoot`: hop after hop from the player's room, the
        arrow stops (`hit`) in the first room that holds the wumpus or is
        labelled like the player's, setting the end of the hunt accordingly. */
    method FlyArrow(targets: seq<int>) returns (ghost trail: seq<nat>, hit: bool)
      requires Ready() && |targets| == ArrowRange
      modifies this`state, rng
      ensures 2 <= |trail| <= ArrowRange + 1 && trail[0] == playerRoom
      ensures IsArrowFlight(rooms[..], trail, targets)
      ensures wumpusRoom !in trail[1..|trail| - 1] && playerRoom !in trail[1..|trail| - 1]
      ensures hit <==> trail[|trail| - 1] == wumpusRoom || trail[|trail| - 1] == playerRoom
      ensures hit ==> state == if trail[|trail| - 1] == wumpusRoom then WumpusDead else PlayerShot
      ensures !hit ==> |trail| == ArrowRange + 1 && state == old(state)
    {
      ghost var rs := rooms[..];
      var room := playerRoom;
      var previous := NoRoom;
      trail := [room];
      var i := 0;
      while i < ArrowRange
        invariant 0 <= i <= ArrowRange && |trail| == i + 1 && trail[0] == playerRoom
        invariant room == trail[i] && IsRoom(room)
        invariant previous == if i == 0 then NoRoom else trail[i - 1]
        invariant IsArrowFlight(rs, trail, targets)
        invariant wumpusRoom !in trail[1..] && playerRoom !in trail[1..]
        invariant state == old(state)
      {
        var nextPrevious := room;
        room := NextRoomForArrowFlight(previous, room, targets[i]);
        previous := nextPrevious;
        ArrowFlightExtend(rs, trail, targets, room);
        trail := trail + [room];
        if rooms[room].wumpus {
          state := WumpusDead;
          return trail, true;
        }
        if rooms[room].number == rooms[playerRoom].number {
          SameLabelSameRoom(rs, room, playerRoom);
          state := PlayerShot;
          return trail, true;
        }
        i := i + 1;
      }
      hit := false;
    }

    /** `move_wumpus`: the wumpus walks to a neighbour drawn at random. */
    method MoveWumpus()
      requires Ready()
      modifies this`wumpusRoom, this`state, this`log, rooms, rng
      ensures Ready()
      ensures WumpusMoved(old(wumpusRoom), old(rooms[..]), old(state), old(log))
    {
      log := log + [WumpusMoving];
      var k := rng.Random(0, ConnectionsPerRoom);
      var newRoom := rooms[wumpusRoom].adjacent[k];
      WumpusStepKeepsHazards(rooms[..], wumpusRoom, newRoom);
      rooms[newRoom] := rooms[newRoom].(wumpus := true);
      rooms[wumpusRoom] := rooms[wumpusRoom].(wumpus := false);
      wumpusRoom := newRoom;
      if rooms[playerRoom].wumpus {
        state := PlayerEaten;
      }
    }
  }
}
