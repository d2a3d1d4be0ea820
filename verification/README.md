# Hunt the Wumpus: the rules engine, modelled in Dafny

This project models `wumpus::Game`, the rules engine of a Hunt the Wumpus game.
The cave is a fixed dodecahedron: 20 rooms, each joined by tunnels to three
others. Each room has a label (1..20), and a room may hold the wumpus, a bat or
a pit. Every hunt runs through the same steps:

- the labels are shuffled;
- every room's list of neighbours is sorted by label;
- the player, the wumpus, two bats and two pits are placed in six distinct
  rooms.

On each turn the player moves to a neighbouring room or shoots a crooked arrow
up to three rooms deep. A move resolves the hazards of the room entered:

- the wumpus eats the player;
- a pit swallows them;
- a bat drops them in a random room, and the check repeats there.

An arrow that neither kills the wumpus nor hits the shooter wakes the wumpus,
and it walks to a random neighbouring room.

Files:

- `cave.dfy` (module `Cave`) holds:
  - the constants and the tunnel table of `src/game.h`;
  - the `Room`, `GameState` and `Message` values;
  - lemmas about the table. It is in range, has three distinct neighbours per
    row and no self-loops, is symmetric and has no triangles.
- `random.dfy` (module `RandomOracle`) models the three helpers of
  `src/random.h` as methods of a class `Rng` that draws from a finite tape.
  Only their range and predicate contracts are relied on.
- `rules.dfy` (module `Rules`) holds the plain-value definitions the game is
  specified against:
  - a well-formed cave: a labelling of 1..20, with every neighbour list
    being its row of the table;
  - neighbour lists sorted by label;
  - hazard counts and the hazard invariant of a hunt;
  - a placement of the player and hazards;
  - the proximity warnings;
  - the rule for each hop of an arrow, and whole flights.

  Each comes with the lemmas that connect these definitions.
- `game.dfy` (module `Wumpus`) holds the class `Game`. Its array of rooms,
  the player's and the wumpus's room, the hunt state, the arrow count and the
  output log change in place, as they do in `src/game.cpp`:
  - pointers to rooms become indices into the array;
  - the null pointer becomes `NoRoom` (-1);
  - the output stream becomes an append-only `seq<Message>`.

One consequence of the rules is proved as `Rules.ArrowNeverReturns`. An arrow
flies at most `ArrowRange` (3) hops and never turns straight back. The cave has
no triangles. So no flight can re-enter the shooter's room, and the
`player_shot` branch of `shoot` (src/game.cpp:213-217) is never taken. The
model keeps that branch as written.

## Model

| member | source | states |
|---|---|---|
| Cave.NewRoom | src/game.h:23-37 | a room built from a label starts with no wumpus, no bat and no pit, and keeps the label and neighbours it was given |
| Cave.ConnectionsInRange | src/game.h:8-15 | the table has 20 rows; each row has 3 entries, and every entry is a room index in [0, 20) |
| Cave.ConnectionsDistinct | src/game.h:10-15 | a room's three connections are pairwise distinct, and a room is never its own neighbour |
| Cave.ConnectionsSymmetric | src/game.h:10-15 | j is in row i exactly when i is in row j |
| Cave.ConnectionsTriangleFree | src/game.h:10-15 | two rooms that are both neighbours of one room are never neighbours of each other |
| Cave.PlacementFits | src/game.h:8-18 | 2 + num_bats + num_pits rooms fit in the cave, so the six rooms can always be distinct |
| Cave.ArrowRangeMatchesConnections | src/game.h:9-20 | arrow_range equals connections_per_room, which callers rely on when they size the array of shot targets |
| RandomOracle.Rng.Random | src/random.h:8-14 | given lower < upper, the result lies in [lower, upper), and one draw is consumed |
| RandomOracle.Rng.RandomIf | src/random.h:16-25 | when some value in the range satisfies the predicate, the result is in [lower, upper) and satisfies it; at least one draw is consumed while draws remain, and the tape never grows |
| RandomOracle.Rng.RandomExcluding | src/random.h:27-37 | the result is in [lower, upper) and is not one of the excluded values |
| RandomOracle.RoomLeft | src/game.cpp:116-118 | fewer exclusions than values in the range leave a value free, so every draw of the placement loop is possible |
| Rules.LabellingIsPermutation | src/game.cpp:93-99 | twenty distinct labels, each in 1..20, use every label 1..20 |
| Rules.SameLabelSameRoom | src/game.cpp:213 | in a well-formed cave, two rooms with the same label are the same room, so comparing labels compares rooms |
| Rules.NeighbourListIsRow | src/game.cpp:101-112 | a neighbour list, whatever its order, holds exactly the rooms of its row of the table |
| Rules.CaveAdjacencySymmetric | src/game.h:10-15 | in any well-formed cave, tunnels lead both ways and no room neighbours itself |
| Rules.InitialCaveWellFormed | src/game.cpp:64-72 | room i labelled i + 1, with row i of the table as its neighbours, gives a well-formed cave |
| Rules.SwappedLabels | src/game.cpp:95-96 | swapping two rooms' labels keeps the multiset of labels, and keeps a labelling a labelling |
| Rules.SwapKeepsRelabelling | src/game.cpp:95-96 | each swap keeps the cave a relabelling of the starting cave: same labels overall, and the same rooms apart from their labels |
| Rules.RelabellingWellFormed | src/game.cpp:93-97 | relabelling a well-formed cave with a labelling keeps it well-formed and keeps every hazard flag |
| Rules.SameLayoutWellFormed | src/game.cpp:83-91 | changing only hazard flags keeps the cave well-formed and keeps every label |
| Rules.TunnelsAreTable | src/game.cpp:64-72 | in any well-formed cave, j is a neighbour of room i exactly when j is in row i of the table |
| Rules.SortByLabel | src/game.cpp:103-111 | the sorted list holds the same rooms, each once when the input has no duplicates, in ascending label order |
| Rules.SortedCaveFacts | src/game.cpp:101-112 | sorting every neighbour list keeps each room's set of neighbours, its label and its hazards, and leaves every list sorted by label |
| Rules.SameLayoutSorted | src/game.cpp:114-129 | placing hazards leaves the neighbour lists sorted |
| Rules.CountUpdate | src/game.cpp:120-128 | replacing one room changes a hazard count by the old room's share and the new room's share, and nothing else |
| Rules.WumpusStepKeepsHazards | src/game.cpp:275-285 | moving the wumpus flag from its room to a neighbour clears the old room and sets exactly the new one. The cave stays well-formed, the bats and pits stay where they were, the hazard invariant holds at the new room, and the new room is never the old one |
| Rules.SomeRoomWithoutBat | src/game.cpp:249-253 | during a hunt some room has no bat, so a bat drop can land in a room that ends the chain |
| Rules.PlacedNothing | src/game.cpp:119-122 | before any flag is set, a hazard-free cave is a placement of no hazards |
| Rules.PlaceNext | src/game.cpp:123-128 | setting the flag of the next drawn room keeps the record of the placement: the wumpus on the second drawn room, the bats on the next two, the pits on the two after |
| Rules.PlacementDone | src/game.cpp:114-129 | a completed placement puts the wumpus on exactly one room, bats on exactly 2 rooms and pits on exactly 2, and no room holds both a bat and a pit |
| Rules.PlacementSeparatesHazards | src/game.cpp:114-129 | after the placement, the player's room holds no hazard and every room holds at most one kind of hazard |
| Rules.FindLabel | src/game.cpp:227-233 | the result is the first position whose room carries the label, or -1 exactly when no listed room carries it |
| Rules.SomeHasExtend | src/game.cpp:139-147 | looking at one more neighbour adds exactly that room's hazard to what was seen |
| Rules.WarningsOncePerKindInOrder | src/game.cpp:136-154 | a warning of each kind is given iff that hazard is in a neighbouring room, at most once, in the order wumpus, bat, pit, and nothing else is said |
| Rules.EndMessagesDistinguishable | src/game.cpp:156-178 | every end of a hunt has its own closing line, and none of them is a proximity warning |
| Rules.ArrowFlightExtend | src/game.cpp:203-207 | a flight followed by one more lawful hop is a flight |
| Rules.ArrowFlightHops | src/game.cpp:259-273 | every hop of a flight goes through a tunnel, and no hop turns straight back to the room it came from |
| Rules.CaveTriangleFree | src/game.h:10-15 | in any well-formed cave, two neighbours of one room are not neighbours of each other |
| Rules.ArrowNeverReturns | src/game.cpp:213-217 | no flight of at most arrow_range hops comes back to the shooter's room |
| Rules.FallbackHasCandidates | src/game.cpp:267-272 | in the random fallback, at least two of the three neighbours are acceptable, so the redraw has something to find |
| Wumpus.Game.constructor | src/game.cpp:64-72 | room i gets label i + 1 and row i of the table as its neighbours, with no hazards; the cave is well-formed, no room is set yet, and the state is none with num_arrows arrows |
| Wumpus.Game.InitHunt | src/game.cpp:74-81 | state none and num_arrows arrows. The labels are a rearrangement of the old ones. Every neighbour list is sorted by label. The player and the hazards sit on six distinct drawn rooms, and the hazard invariant holds |
| Wumpus.Game.ResetRooms | src/game.cpp:83-91 | every hazard flag is cleared, and labels and neighbour lists are unchanged |
| Wumpus.Game.ShuffleRoomNumbers | src/game.cpp:93-99 | the labels are rearranged, every hazard flag is kept, the cave stays well-formed, and every neighbour list ends sorted |
| Wumpus.Game.SwapRoomNumbers | src/game.cpp:95-96 | after the swapping loop the labels are still a labelling, and the cave is a relabelling of the one before |
| Wumpus.Game.SortAdjacentRooms | src/game.cpp:101-112 | the rooms become the sorted cave of the rooms before, and the cave stays well-formed |
| Wumpus.Game.SortEachRoom | src/game.cpp:103-111 | every room ends with its neighbour list sorted by the given labels |
| Wumpus.Game.PlacePlayerAndHazards | src/game.cpp:114-129 | six distinct rooms are drawn, in this order: the player's, the wumpus's, the bats', the pits'. The flags are set accordingly and nothing else changes |
| Wumpus.Game.DrawLocations | src/game.cpp:116-118 | 2 + num_bats + num_pits pairwise distinct room indices are drawn |
| Wumpus.Game.IsHuntOver | src/game.cpp:131-134 | the hunt is over exactly when its state is one of the five ends |
| Wumpus.Game.InformPlayerOfHazards | src/game.cpp:136-154 | appends exactly the warnings for the hazards in neighbouring rooms, and changes nothing else |
| Wumpus.Game.EndHunt | src/game.cpp:156-178 | appends the closing line of the end reached; calling it while the hunt is on is ruled out |
| Wumpus.Game.TargetIsAdjacent | src/game.cpp:227-233 | true exactly when some neighbour of the player's room carries the label |
| Wumpus.Game.CanMove | src/game.cpp:180-183 | true exactly when the target is the label of a neighbour of the player's room |
| Wumpus.Game.Move | src/game.cpp:185-191 | with an adjacent target, the player enters the neighbour with that label before the hazards are checked; otherwise the player stays put. The rooms the player then passes through start at the room entered and resolve as CheckRoomHazards states |
| Wumpus.Game.NeighbourLabelled | src/game.cpp:187-189 | the neighbour carrying the target label, or the player's own room when there is none |
| Wumpus.Game.CanShoot | src/game.cpp:193-196 | true exactly when an arrow is left and the first target is the label of a neighbour |
| Wumpus.Game.Shoot | src/game.cpp:198-220 | arrows drop by exactly one. The arrow follows a lawful flight of at most arrow_range hops. The first room holding the wumpus ends the hunt with the wumpus dead; a room labelled like the player's ends it with the player shot. Otherwise, after a full-range flight, the wumpus moves |
| Wumpus.Game.FlyArrow | src/game.cpp:201-218 | the arrow stops at the first room holding the wumpus or labelled like the player's, setting the matching end; otherwise it flies the full range and the state is unchanged |
| Wumpus.Game.Quit | src/game.cpp:222-225 | the state becomes player_quit |
| Wumpus.Game.CheckRoomHazards | src/game.cpp:235-257 | the player passes through a sequence of rooms, starting at the room they were in. Every room before the last holds a bat and neither the wumpus nor a pit, so a wumpus or pit room, also one reached by a drop, ends the chain. The log grows by exactly one message per drop. The last room gives player_eaten if it holds the wumpus (checked first), else player_fell if it holds a pit, else it holds no hazard and the state is unchanged |
| Wumpus.Game.DropRoom | src/game.cpp:252 | the bat drops the player in some room, and consumes a draw while draws remain |
| Wumpus.Game.NextRoomForArrowFlight | src/game.cpp:259-273 | always a neighbour of the current room, and never the room just left. It is the neighbour with the target label when there is one and the target is not the label just left. In every case its label differs from the label just left, which is 0 on the first hop |
| Wumpus.Game.MoveWumpus | src/game.cpp:275-285 | the wumpus flag moves to a neighbour of its old room and stays on exactly one room. One message is logged, and the player is eaten iff the wumpus walked into the player's room |

## Left out

- src/main.cpp is not part of this model. It holds the window, the input handling and the drawing.
- `Game::game_info` and the text of the messages are left out. Messages are tags in an append-only log, and the output stream is that log.
- The accessors `get_rooms`, `get_player_room`, `get_game_state` and `get_arrows` (src/game.cpp:286-304) are left out. They only return fields that the class exposes directly.
- The random engine, its seeding and the uniformity of every draw are left out. A draw is `lower + d % (upper - lower)` for the next value `d` of a finite tape.
- RandomOracle.Rng.RandomIf: the source redraws for ever until the predicate holds. The model redraws while the tape lasts and then takes the least accepted value. A terminating run of the source is one on some tape. Its termination with probability 1 is not modelled.
- Wumpus.Game.CheckRoomHazards: the rooms a bat drops the player into are recorded, but not tied to the particular draws that chose them.
- Wumpus.Game.DropRoom: once the tape is exhausted, the drop lands in a room without a bat. That is one of the drops the source can make, and it ends the bat chain, so `check_room_hazards` always terminates in the model.
- Wumpus.Game.EndHunt: the `std::logic_error` thrown for the state `none` is not modelled. Calling it in that state is excluded by the precondition instead.
- Wumpus.Game.Shoot: `arrows` is an unbounded integer, so a decrement past the smallest `int` is not modelled. The source never checks `can_shoot` inside `shoot`, and neither does the model.
- Wumpus.Game.Move, Wumpus.Game.Shoot, Wumpus.Game.InformPlayerOfHazards, Wumpus.Game.CanMove and Wumpus.Game.CanShoot require the player's room to be set: before `init_hunt` the source dereferences a null room pointer. Move and Shoot also require the hazards to be placed.
- Rules.SortByLabel: `std::sort` is modelled by its result on three elements, and not by the library's own sequence of moves. The same-rooms property is stated as membership plus distinctness, which for neighbour lists says the same as a multiset.
- Pointer identity is replaced by room indices. The arrow's "previous room" is the index `NoRoom` on the first hop.
