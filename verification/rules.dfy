/** The rules of a hunt stated on plain values: what a well-formed cave is, how
    hazards are counted and reported, how an arrow may fly. The class in
    game.dfy is specified in these terms. */
module Rules {
  import opened Cave

  predicate Distinct<T(==)>(s: seq<T>)
  {
    forall a, b :: 0 <= a < b < |s| ==> s[a] != s[b]
  }

  // ---------------------------------------------------------------- labels

  /** The label of every room, by structural index. */
  function Labels(rs: seq<Room>): seq<int>
  {
    seq(|rs|, i requires 0 <= i < |rs| => rs[i].number)
  }

  /** One label per room, each in 1..NumRooms and no two alike. */
  predicate IsLabelling(ls: seq<int>)
  {
    && |ls| == NumRooms
    && (forall i :: 0 <= i < |ls| ==> 1 <= ls[i] <= NumRooms)
    && Distinct(ls)
  }

  /** A labelling uses every label 1..NumRooms: it is a permutation of them. */
  lemma LabellingIsPermutation(ls: seq<int>)
    requires IsLabelling(ls)
    ensures forall v :: 1 <= v <= NumRooms ==> v in ls
  {
    var used := set x | x in ls;
    DistinctCard(ls);
    var range := Interval(1, NumRooms + 1);
    forall v | 1 <= v <= NumRooms
      ensures v in ls
    {
      if v !in ls {
        assert used <= range - {v};
        SubsetCard(used, range - {v});
      }
    }
  }

  lemma {:induction false} DistinctCard(s: seq<int>)
    requires Distinct(s)
    ensures |set x | x in s| == |s|
  {
    if s != [] {
      DistinctCard(s[1..]);
      assert (set x | x in s) == {s[0]} + (set x | x in s[1..]);
      assert s[0] !in s[1..];
    }
  }

  /** The integers in [lo, hi). */
  function Interval(lo: int, hi: int): (s: set<int>)
    ensures forall x :: x in s <==> lo <= x < hi
    ensures lo <= hi ==> |s| == hi - lo
    decreases hi - lo
  {
    if hi <= lo then {} else Interval(lo, hi - 1) + {hi - 1}
  }

  lemma SubsetCard(a: set<int>, b: set<int>)
    requires a <= b
    ensures |a| <= |b|
  {
    assert b == a + (b - a);
    assert a * (b - a) == {};
  }

  /** Two rooms of a well-formed cave with the same label are the same room. */
  lemma SameLabelSameRoom(rs: seq<Room>, i: int, j: int)
    requires WellFormed(rs) && 0 <= i < |rs| && 0 <= j < |rs|
    requires rs[i].number == rs[j].number
    ensures i == j
  {
    var ls := Labels(rs);
    assert ls[i] == rs[i].number && ls[j] == rs[j].number;
  }

  // ------------------------------------------------------- neighbour lists

  /** `adj` lists the three neighbours of room i, each once, in some order. */
  predicate IsNeighbourList(adj: seq<nat>, i: int)
    requires IsRoom(i)
  {
    && |adj| == ConnectionsPerRoom
    && Distinct(adj)
    && (forall k :: 0 <= k < |adj| ==> IsRoom(adj[k]))
    && (forall k :: 0 <= k < |adj| ==> adj[k] in RoomConnections[i])
  }

  /** As a set, a neighbour list is exactly row i of `RoomConnections`. */
  lemma NeighbourListIsRow(adj: seq<nat>, i: int)
    requires IsRoom(i) && IsNeighbourList(adj, i)
    ensures forall j :: j in adj <==> j in RoomConnections[i]
  {
    Row(i);
    ThreeOfThree(adj, RoomConnections[i]);
  }

  /** Three distinct values drawn from a three-element list are all of it. */
  lemma ThreeOfThree(adj: seq<nat>, row: seq<nat>)
    requires |adj| == 3 && |row| == 3 && Distinct(adj)
    requires row[0] != row[1] && row[0] != row[2] && row[1] != row[2]
    requires forall k :: 0 <= k < 3 ==> adj[k] in row
    ensures forall j :: j in adj <==> j in row
  {
    assert forall k :: 0 <= k < 3 ==> adj[k] == row[0] || adj[k] == row[1] || adj[k] == row[2];
    assert adj[0] != adj[1] && adj[0] != adj[2] && adj[1] != adj[2];
    assert row[0] in adj && row[1] in adj && row[2] in adj;
  }

  /** The cave as the game holds it: one labelling, and the neighbour list of
      every room is its row of the tunnel table. */
  predicate WellFormed(rs: seq<Room>)
  {
    && |rs| == NumRooms
    && IsLabelling(Labels(rs))
    && forall i :: 0 <= i < |rs| ==> IsNeighbourList(rs[i].adjacent, i)
  }

  /** In a well-formed cave, whatever its labelling and neighbour order, j is
      a neighbour of i exactly when i is a neighbour of j, and no room is its
      own neighbour. */
  lemma CaveAdjacencySymmetric(rs: seq<Room>)
    requires WellFormed(rs)
    ensures forall i, j :: 0 <= i < |rs| && 0 <= j < |rs| ==>
      (j in rs[i].adjacent <==> i in rs[j].adjacent)
    ensures forall i :: 0 <= i < |rs| ==> i !in rs[i].adjacent
  {
    ConnectionsSymmetric();
    ConnectionsDistinct();
    TunnelsAreTable(rs);
  }

  /** The cave as the game's constructor builds it: room i labelled i + 1,
      with its row of the tunnel table as neighbour list, is well-formed. */
  lemma InitialCaveWellFormed(rs: seq<Room>)
    requires |rs| == NumRooms
    requires forall i :: 0 <= i < |rs| ==> rs[i].number == i + 1 && rs[i].adjacent == RoomConnections[i]
    ensures WellFormed(rs)
  {
    forall i | 0 <= i < |rs|
      ensures IsNeighbourList(rs[i].adjacent, i)
    {
      Row(i);
    }
  }

  /** Swapping the labels of rooms i and j keeps the multiset of labels, and
      so keeps a labelling a labelling. */
  lemma SwappedLabels(rs: seq<Room>, i: int, j: int)
    requires 0 <= i < |rs| && 0 <= j < |rs|
    ensures var ts := rs[i := rs[i].(number := rs[j].number)][j := rs[j].(number := rs[i].number)];
      && multiset(Labels(ts)) == multiset(Labels(rs))
      && (IsLabelling(Labels(rs)) ==> IsLabelling(Labels(ts)))
  {
    var ts := rs[i := rs[i].(number := rs[j].number)][j := rs[j].(number := rs[i].number)];
    var ls := Labels(rs);
    assert Labels(ts) == ls[i := ls[j]][j := ls[i]];
    if IsLabelling(ls) {
      var us := Labels(ts);
      forall a, b | 0 <= a < b < |us|
        ensures us[a] != us[b]
      {
        var a' := if a == i then j else if a == j then i else a;
        var b' := if b == i then j else if b == j then i else b;
        assert us[a] == ls[a'] && us[b] == ls[b'];
        assert a' != b';
        if a' < b' {
          assert ls[a'] != ls[b'];
        } else {
          assert ls[b'] != ls[a'];
        }
      }
    }
  }

  /** Same labels and same neighbour lists; hazard flags may differ. */
  predicate SameLayout(rs: seq<Room>, ts: seq<Room>)
  {
    && |rs| == |ts|
    && forall i :: 0 <= i < |rs| ==> rs[i].number == ts[i].number && rs[i].adjacent == ts[i].adjacent
  }

  /** Changing only hazard flags keeps a cave well-formed. */
  lemma SameLayoutWellFormed(rs: seq<Room>, ts: seq<Room>)
    requires WellFormed(rs) && SameLayout(rs, ts)
    ensures WellFormed(ts) && Labels(ts) == Labels(rs)
  {
    assert Labels(rs) == Labels(ts);
  }

  /** The tunnels of a well-formed cave are those of the table: whatever the
      order of a neighbour list, its rooms are the table's row. */
  lemma TunnelsAreTable(rs: seq<Room>)
    requires WellFormed(rs)
    ensures forall i, j :: 0 <= i < |rs| ==> (j in rs[i].adjacent <==> j in RoomConnections[i])
  {
    forall i | 0 <= i < |rs|
      ensures forall j :: j in rs[i].adjacent <==> j in RoomConnections[i]
    {
      NeighbourListIsRow(rs[i].adjacent, i);
    }
  }

  /** Every room keeps its hazard flags. */
  predicate SameHazards(rs: seq<Room>, ts: seq<Room>)
  {
    && |rs| == |ts|
    && forall i :: 0 <= i < |rs| ==>
         ts[i].wumpus == rs[i].wumpus && ts[i].bat == rs[i].bat && ts[i].pit == rs[i].pit
  }

  /** `rs` is `rs0` with only the labels changed, and those rearranged. */
  predicate Relabelling(rs0: seq<Room>, rs: seq<Room>)
  {
    && |rs| == |rs0|
    && multiset(Labels(rs)) == multiset(Labels(rs0))
    && forall i :: 0 <= i < |rs| ==> rs[i] == rs0[i].(number := rs[i].number)
  }

  /** One swap of the shuffle keeps a labelling a labelling, and keeps a
      relabelling of the cave the shuffle started from. */
  lemma SwapKeepsRelabelling(rs0: seq<Room>, rs: seq<Room>, i: int, j: int)
    requires IsLabelling(Labels(rs)) && Relabelling(rs0, rs) && 0 <= i < |rs| && 0 <= j < |rs|
    ensures var ts := rs[i := rs[i].(number := rs[j].number)][j := rs[j].(number := rs[i].number)];
      IsLabelling(Labels(ts)) && Relabelling(rs0, ts)
  {
    SwappedLabels(rs, i, j);
  }

  /** A relabelling of a well-formed cave by a labelling is well-formed and
      carries the same hazards. */
  lemma RelabellingWellFormed(rs0: seq<Room>, rs: seq<Room>)
    requires WellFormed(rs0) && Relabelling(rs0, rs) && IsLabelling(Labels(rs))
    ensures WellFormed(rs) && SameHazards(rs0, rs)
  {
    forall i | 0 <= i < |rs|
      ensures IsNeighbourList(rs[i].adjacent, i)
    {
      assert rs[i].adjacent == rs0[i].adjacent;
    }
  }

  // -------------------------------------------------------------- sorting

  predicate LabelsDefined(adj: seq<nat>, ls: seq<int>)
  {
    forall k :: 0 <= k < |adj| ==> adj[k] < |ls|
  }

  /** `adj` is in ascending order of label. */
  predicate SortedByLabel(adj: seq<nat>, ls: seq<int>)
    requires LabelsDefined(adj, ls)
  {
    forall a, b :: 0 <= a < b < |adj| ==> ls[adj[a]] <= ls[adj[b]]
  }

  /** The `std::sort` of a neighbour list by label. The labels of a cave are
      distinct, so any sorting algorithm yields this one result: the same
      rooms, in ascending label order. */
  function SortByLabel(adj: seq<nat>, ls: seq<int>): (r: seq<nat>)
    requires |adj| == ConnectionsPerRoom && LabelsDefined(adj, ls)
    ensures |r| == |adj| && LabelsDefined(r, ls)
    ensures forall x :: x in r <==> x in adj
    ensures Distinct(adj) ==> Distinct(r)
    ensures SortedByLabel(r, ls)
  {
    if ls[adj[1]] < ls[adj[0]] then InsertByLabel(adj[1], adj[0], adj[2], ls)
    else InsertByLabel(adj[0], adj[1], adj[2], ls)
  }

  /** Inserts z into the label-ordered pair x, y. */
  function InsertByLabel(x: nat, y: nat, z: nat, ls: seq<int>): (r: seq<nat>)
    requires x < |ls| && y < |ls| && z < |ls| && ls[x] <= ls[y]
    ensures forall v :: v in r <==> v == x || v == y || v == z
    ensures x != y && x != z && y != z ==> Distinct(r)
    ensures |r| == 3 && LabelsDefined(r, ls) && SortedByLabel(r, ls)
  {
    if ls[z] < ls[x] then [z, x, y]
    else if ls[z] < ls[y] then [x, z, y]
    else [x, y, z]
  }

  /** Every neighbour list is in ascending label order. */
  predicate NeighboursSorted(rs: seq<Room>)
    requires WellFormed(rs)
  {
    forall i :: 0 <= i < |rs| ==> SortedByLabel(rs[i].adjacent, Labels(rs))
  }

  /** A room with its neighbour list sorted by the labels `ls`. */
  function SortedRoom(r: Room, ls: seq<int>): Room
    requires |r.adjacent| == ConnectionsPerRoom && LabelsDefined(r.adjacent, ls)
  {
    r.(adjacent := SortByLabel(r.adjacent, ls))
  }

  /** The cave with every neighbour list sorted by label. */
  function SortedCave(rs: seq<Room>): (ts: seq<Room>)
    requires WellFormed(rs)
    ensures |ts| == |rs|
  {
    var ls := Labels(rs);
    seq(|rs|, i requires 0 <= i < |rs| => SortedRoom(rs[i], ls))
  }

  /** A cave whose every room is the sorted original room is the sorted cave. */
  lemma SortedCaveIs(rs: seq<Room>, ts: seq<Room>)
    requires WellFormed(rs) && |ts| == |rs|
    requires forall j :: 0 <= j < |rs| ==> ts[j] == SortedRoom(rs[j], Labels(rs))
    ensures ts == SortedCave(rs)
  {
  }

  /** Sorting the neighbour lists keeps the cave well-formed, with the same
      labels, hazards and tunnels, and leaves every list sorted. */
  lemma SortedCaveFacts(rs: seq<Room>)
    requires WellFormed(rs)
    ensures var ts := SortedCave(rs);
      && WellFormed(ts) && Labels(ts) == Labels(rs) && SameHazards(rs, ts)
      && (forall i, x :: 0 <= i < |rs| ==> (x in ts[i].adjacent <==> x in rs[i].adjacent))
      && NeighboursSorted(ts)
  {
    var ls := Labels(rs);
    var ts := SortedCave(rs);
    forall i | 0 <= i < |rs|
      ensures ts[i] == SortedRoom(rs[i], ls)
    {
    }
    assert Labels(ts) == ls;
    forall i | 0 <= i < |rs|
      ensures IsNeighbourList(ts[i].adjacent, i)
      ensures SortedByLabel(ts[i].adjacent, ls)
    {
      var adj := rs[i].adjacent;
      assert IsNeighbourList(adj, i);
      var r := SortByLabel(adj, ls);
      assert ts[i].adjacent == r;
      forall k | 0 <= k < |r|
        ensures IsRoom(r[k]) && r[k] in RoomConnections[i]
      {
        assert r[k] in adj;
      }
    }
  }

  /** Changing only hazard flags keeps the neighbour lists sorted. */
  lemma SameLayoutSorted(rs: seq<Room>, ts: seq<Room>)
    requires WellFormed(rs) && SameLayout(rs, ts) && NeighboursSorted(rs)
    ensures WellFormed(ts) && NeighboursSorted(ts)
  {
    SameLayoutWellFormed(rs, ts);
  }

  // -------------------------------------------------------------- hazards

  datatype Hazard = Wumpus | Bat | Pit

  predicate Has(r: Room, h: Hazard)
  {
    match h
    case Wumpus => r.wumpus
    case Bat => r.bat
    case Pit => r.pit
  }

  predicate NoHazards(rs: seq<Room>)
  {
    forall i :: 0 <= i < |rs| ==> !rs[i].wumpus && !rs[i].bat && !rs[i].pit
  }

  /** The number of rooms with hazard h. */
  function Count(rs: seq<Room>, h: Hazard): nat
  {
    if rs == [] then 0 else (if Has(rs[0], h) then 1 else 0) + Count(rs[1..], h)
  }

  /** Replacing one room changes the count by what the old and the new room
      contribute. */
  lemma {:induction false} CountUpdate(rs: seq<Room>, i: int, r: Room, h: Hazard)
    requires 0 <= i < |rs|
    ensures Count(rs[i := r], h)
         == Count(rs, h) - (if Has(rs[i], h) then 1 else 0) + (if Has(r, h) then 1 else 0)
  {
    if i == 0 {
      assert rs[i := r][1..] == rs[1..];
    } else {
      CountUpdate(rs[1..], i - 1, r, h);
      assert rs[i := r][1..] == rs[1..][i - 1 := r];
    }
  }

  /** A cave without hazards counts none of any kind. */
  lemma {:induction false} NoHazardsCount(rs: seq<Room>, h: Hazard)
    requires NoHazards(rs)
    ensures Count(rs, h) == 0
  {
    if rs != [] {
      NoHazardsCount(rs[1..], h);
    }
  }

  /** A positive count is witnessed by a room. */
  lemma {:induction false} CountPositive(rs: seq<Room>, h: Hazard)
    requires Count(rs, h) > 0
    ensures exists i :: 0 <= i < |rs| && Has(rs[i], h)
  {
    if !Has(rs[0], h) {
      CountPositive(rs[1..], h);
      var i :| 0 <= i < |rs[1..]| && Has(rs[1..][i], h);
      assert Has(rs[i + 1], h);
    }
  }

  /** The bat messages of a chain of n drops. */
  function CarriedAway(n: nat): seq<Message>
  {
    if n == 0 then [] else CarriedAway(n - 1) + [CarriedAwayByBat]
  }

  /** The hazard invariant of a hunt: the wumpus flag on room w and no other,
      NumBats bat rooms, NumPits pit rooms, and no room both bat and pit. */
  predicate HazardsPlaced(rs: seq<Room>, w: int)
  {
    && 0 <= w < |rs|
    && (forall i :: 0 <= i < |rs| ==> (rs[i].wumpus <==> i == w))
    && Count(rs, Bat) == NumBats
    && Count(rs, Pit) == NumPits
    && (forall i :: 0 <= i < |rs| ==> !(rs[i].bat && rs[i].pit))
  }

  /** One step of the wumpus: its flag moves from room w to the neighbour n
      and nothing else changes. The step keeps the cave well-formed and the
      hazard invariant intact, and n is never w itself. */
  lemma WumpusStepKeepsHazards(rs: seq<Room>, w: int, n: int)
    requires WellFormed(rs) && HazardsPlaced(rs, w) && n in rs[w].adjacent
    ensures 0 <= n < |rs| && n != w
    ensures var ts := rs[n := rs[n].(wumpus := true)][w := rs[w].(wumpus := false)];
      && WellFormed(ts) && HazardsPlaced(ts, n)
      && forall i :: 0 <= i < |rs| ==> ts[i] == rs[i].(wumpus := i == n)
  {
    CaveAdjacencySymmetric(rs);
    assert IsNeighbourList(rs[w].adjacent, w);
    var us := rs[n := rs[n].(wumpus := true)];
    var ts := us[w := rs[w].(wumpus := false)];
    CountUpdate(rs, n, rs[n].(wumpus := true), Bat);
    CountUpdate(rs, n, rs[n].(wumpus := true), Pit);
    CountUpdate(us, w, rs[w].(wumpus := false), Bat);
    CountUpdate(us, w, rs[w].(wumpus := false), Pit);
    SameLayoutWellFormed(rs, ts);
  }

  /** While a hunt is on, some room has no bat (a pit room, for one). */
  lemma SomeRoomWithoutBat(rs: seq<Room>, w: int)
    requires HazardsPlaced(rs, w)
    ensures exists i :: 0 <= i < |rs| && !rs[i].bat
  {
    CountPositive(rs, Pit);
    var i :| 0 <= i < |rs| && Has(rs[i], Pit);
    assert !rs[i].bat;
  }

  /** The outcome of a placement: `drawn` holds 2 + NumBats + NumPits
      distinct rooms; the first is the player's, the second the wumpus's,
      then come the bats and then the pits, and no other room has a hazard. */
  predicate PlacedAt(rs: seq<Room>, drawn: seq<nat>)
  {
    && |drawn| == 2 + NumBats + NumPits
    && Distinct(drawn)
    && (forall k :: 0 <= k < |drawn| ==> drawn[k] < |rs|)
    && (forall i :: 0 <= i < |rs| ==> (rs[i].wumpus <==> i == drawn[1]))
    && (forall i :: 0 <= i < |rs| ==> (rs[i].bat <==> i in drawn[2..2 + NumBats]))
    && (forall i :: 0 <= i < |rs| ==> (rs[i].pit <==> i in drawn[2 + NumBats..]))
  }

  /** `n` clamped to [lo, hi]. */
  function Clamp(n: int, lo: int, hi: int): (r: int)
    requires lo <= hi
    ensures lo <= r <= hi && (lo <= n <= hi ==> r == n)
  {
    if n < lo then lo else if n > hi then hi else n
  }

  /** The placement has set the hazards of the first n drawn rooms on the
      hazard-free cave rs0: the wumpus on drawn[1], bats on the NumBats rooms
      after it, pits on the NumPits rooms after those (drawn[0] is the
      player's room and gets no flag). */
  predicate PlacedUpTo(rs0: seq<Room>, rs: seq<Room>, drawn: seq<nat>, n: int)
    requires |drawn| == 2 + NumBats + NumPits
  {
    var bats := Clamp(n, 2, 2 + NumBats);
    var pits := Clamp(n, 2 + NumBats, 2 + NumBats + NumPits);
    && SameLayout(rs0, rs)
    && (forall j :: 0 <= j < |rs| ==>
          && (rs[j].wumpus <==> n > 1 && j == drawn[1])
          && (rs[j].bat <==> j in drawn[2..bats])
          && (rs[j].pit <==> j in drawn[2 + NumBats..pits]))
    && Count(rs, Bat) == bats - 2
    && Count(rs, Pit) == pits - 2 - NumBats
  }

  /** The flag the placement sets on the room drawn in position n. */
  function PlaceFlag(r: Room, n: int): (t: Room)
    ensures t.number == r.number && t.adjacent == r.adjacent
  {
    if n == 1 then r.(wumpus := true)
    else if n < 2 + NumBats then r.(bat := true)
    else r.(pit := true)
  }

  /** Nothing is placed before the wumpus is. */
  lemma PlacedNothing(rs0: seq<Room>, drawn: seq<nat>)
    requires NoHazards(rs0) && |drawn| == 2 + NumBats + NumPits
    ensures PlacedUpTo(rs0, rs0, drawn, 1)
  {
    NoHazardsCount(rs0, Bat);
    NoHazardsCount(rs0, Pit);
  }

  /** Placing the hazard of the next drawn room keeps the account. */
  lemma PlaceNext(rs0: seq<Room>, rs: seq<Room>, drawn: seq<nat>, n: int)
    requires |drawn| == 2 + NumBats + NumPits && Distinct(drawn)
    requires 1 <= n < |drawn| && drawn[n] < |rs|
    requires PlacedUpTo(rs0, rs, drawn, n)
    ensures PlacedUpTo(rs0, rs[drawn[n] := PlaceFlag(rs[drawn[n]], n)], drawn, n + 1)
  {
    var d := drawn[n];
    var t := PlaceFlag(rs[d], n);
    assert d !in drawn[2..Clamp(n, 2, 2 + NumBats)];
    assert d !in drawn[2 + NumBats..Clamp(n, 2 + NumBats, 2 + NumBats + NumPits)];
    assert n > 1 ==> d != drawn[1];
    CountUpdate(rs, d, t, Bat);
    CountUpdate(rs, d, t, Pit);
    var ts := rs[d := t];
    var bats := Clamp(n + 1, 2, 2 + NumBats);
    var pits := Clamp(n + 1, 2 + NumBats, 2 + NumBats + NumPits);
    forall j | 0 <= j < |ts|
      ensures ts[j].bat <==> j in drawn[2..bats]
      ensures ts[j].pit <==> j in drawn[2 + NumBats..pits]
    {
      if 2 <= n < 2 + NumBats {
        assert drawn[2..bats] == drawn[2..n] + [d];
      }
      if 2 + NumBats <= n {
        assert drawn[2 + NumBats..pits] == drawn[2 + NumBats..n] + [d];
      }
    }
  }

  /** A completed placement is a placement in the sense of PlacedAt and
      establishes the hazard invariant of a hunt. */
  lemma PlacementDone(rs0: seq<Room>, rs: seq<Room>, drawn: seq<nat>)
    requires |drawn| == 2 + NumBats + NumPits && Distinct(drawn)
    requires forall k :: 0 <= k < |drawn| ==> drawn[k] < |rs|
    requires PlacedUpTo(rs0, rs, drawn, |drawn|)
    ensures PlacedAt(rs, drawn) && HazardsPlaced(rs, drawn[1]) && SameLayout(rs0, rs)
  {
    forall j | 0 <= j < |rs|
      ensures !(rs[j].bat && rs[j].pit)
    {
      if rs[j].bat {
        var a :| 2 <= a < 2 + NumBats && drawn[a] == j;
        forall b | 2 + NumBats <= b < |drawn|
          ensures drawn[b] != j
        {
          assert a != b;
        }
      }
    }
  }

  /** After a placement the player's room is free of hazards and every hazard
      room holds exactly one kind of hazard. */
  lemma PlacementSeparatesHazards(rs: seq<Room>, drawn: seq<nat>)
    requires PlacedAt(rs, drawn)
    ensures !rs[drawn[0]].wumpus && !rs[drawn[0]].bat && !rs[drawn[0]].pit
    ensures forall i :: 0 <= i < |rs| ==>
      (if rs[i].wumpus then 1 else 0) + (if rs[i].bat then 1 else 0) + (if rs[i].pit then 1 else 0) <= 1
  {
    assert drawn[0] != drawn[1];
    assert drawn[0] !in drawn[2..2 + NumBats];
    assert drawn[0] !in drawn[2 + NumBats..];
    forall i | 0 <= i < |rs|
      ensures (if rs[i].wumpus then 1 else 0) + (if rs[i].bat then 1 else 0) + (if rs[i].pit then 1 else 0) <= 1
    {
      if rs[i].bat {
        assert i !in drawn[2 + NumBats..];
      }
    }
  }

  // ------------------------------------------------------------ narration

  /** The position in `adj` of the first listed room labelled `target`, or
      -1 when none is. */
  function FindLabel(rs: seq<Room>, adj: seq<nat>, target: int): (r: int)
    ensures -1 <= r < |adj|
    ensures 0 <= r ==> adj[r] < |rs| && rs[adj[r]].number == target
    ensures 0 <= r ==> forall k :: 0 <= k < r && adj[k] < |rs| ==> rs[adj[k]].number != target
    ensures r == -1 ==> forall k :: 0 <= k < |adj| && adj[k] < |rs| ==> rs[adj[k]].number != target
  {
    if adj == [] then -1
    else if adj[0] < |rs| && rs[adj[0]].number == target then 0
    else
      var r := FindLabel(rs, adj[1..], target);
      if r < 0 then -1 else r + 1
  }

  /** Searching one more listed room finds it only when nothing before it
      matched. */
  lemma FindLabelExtend(rs: seq<Room>, adj: seq<nat>, k: int, target: int)
    requires 0 <= k < |adj|
    ensures var r := FindLabel(rs, adj[..k], target);
      FindLabel(rs, adj[..k + 1], target)
        == if r >= 0 then r else if adj[k] < |rs| && rs[adj[k]].number == target then k else -1
  {
    var a, b := adj[..k], adj[..k + 1];
    assert forall j :: 0 <= j < k ==> b[j] == a[j];
    assert b[k] == adj[k];
  }

  /** `target` is the label of one of the neighbours of room p. */
  predicate IsAdjacentLabel(rs: seq<Room>, p: int, target: int)
    requires 0 <= p < |rs|
  {
    FindLabel(rs, rs[p].adjacent, target) >= 0
  }

  /** Some room listed in `adj` has hazard h. */
  predicate SomeHas(rs: seq<Room>, adj: seq<nat>, h: Hazard)
  {
    exists k :: 0 <= k < |adj| && adj[k] < |rs| && Has(rs[adj[k]], h)
  }

  /** Looking at one more listed room adds its hazard to what was seen. */
  lemma SomeHasExtend(rs: seq<Room>, adj: seq<nat>, k: int, h: Hazard)
    requires 0 <= k < |adj| && adj[k] < |rs|
    ensures SomeHas(rs, adj[..k + 1], h) <==> SomeHas(rs, adj[..k], h) || Has(rs[adj[k]], h)
  {
    assert adj[..k + 1][k] == adj[k];
    if SomeHas(rs, adj[..k + 1], h) && !Has(rs[adj[k]], h) {
      var j :| 0 <= j < k + 1 && adj[..k + 1][j] < |rs| && Has(rs[adj[..k + 1][j]], h);
      assert adj[..k][j] == adj[j];
    }
    if SomeHas(rs, adj[..k], h) {
      var j :| 0 <= j < k && adj[..k][j] < |rs| && Has(rs[adj[..k][j]], h);
      assert adj[..k + 1][j] == adj[j];
    }
  }

  /** Some neighbour of room p has hazard h. */
  predicate Nearby(rs: seq<Room>, p: int, h: Hazard)
    requires 0 <= p < |rs|
  {
    SomeHas(rs, rs[p].adjacent, h)
  }

  function Warning(h: Hazard): Message
  {
    match h
    case Wumpus => SmellWumpus
    case Bat => HearFlapping
    case Pit => FeelBreeze
  }

  /** The lines a player in room p is told: one per kind of hazard nearby,
      wumpus first, then bat, then pit. */
  function Warnings(rs: seq<Room>, p: int): seq<Message>
    requires 0 <= p < |rs|
  {
    (if Nearby(rs, p, Wumpus) then [Warning(Wumpus)] else [])
    + (if Nearby(rs, p, Bat) then [Warning(Bat)] else [])
    + (if Nearby(rs, p, Pit) then [Warning(Pit)] else [])
  }

  /** The position of a proximity warning in the fixed order; 3 for any
      other line. */
  function WarningRank(m: Message): nat
  {
    match m
    case SmellWumpus => 0
    case HearFlapping => 1
    case FeelBreeze => 2
    case _ => 3
  }

  /** Each kind of warning is given iff that hazard is next door, at most
      once, and in the order wumpus, bat, pit. */
  lemma WarningsOncePerKindInOrder(rs: seq<Room>, p: int)
    requires 0 <= p < |rs|
    ensures forall h :: Warning(h) in Warnings(rs, p) <==> Nearby(rs, p, h)
    ensures forall a :: 0 <= a < |Warnings(rs, p)| ==> WarningRank(Warnings(rs, p)[a]) < 3
    ensures forall a, b :: 0 <= a < b < |Warnings(rs, p)| ==>
      WarningRank(Warnings(rs, p)[a]) < WarningRank(Warnings(rs, p)[b])
  {
    var w := Warnings(rs, p);
    forall h
      ensures Warning(h) in w <==> Nearby(rs, p, h)
    {
      match h
      case Wumpus =>
      case Bat =>
      case Pit =>
    }
  }

  /** The closing line for each end of a hunt. */
  function EndMessage(s: GameState): Message
    requires s != None
  {
    match s
    case PlayerEaten => EatenByWumpus
    case PlayerFell => FellIntoPit
    case PlayerShot => HitByOwnArrow
    case WumpusDead => WumpusSlain
    case PlayerQuit => FleeCave
  }

  /** Every end of a hunt has its own closing line, and none of them is a
      proximity warning. */
  lemma EndMessagesDistinguishable(s: GameState, t: GameState)
    requires s != None && t != None
    ensures EndMessage(s) == EndMessage(t) ==> s == t
    ensures WarningRank(EndMessage(s)) == 3
  {
  }

  // --------------------------------------------------------- arrow flight

  /** One hop of an arrow from room `from` into room `to`, where `back` is
      the room the arrow left before `from`, or -1 on the first hop: the hop
      follows a tunnel, does not go straight back, and enters the neighbour
      labelled `target` whenever there is one and `target` is not the label
      of `back` (0 when there is no `back`). */
  predicate IsHop(rs: seq<Room>, back: int, from: nat, to: nat, target: int)
    requires from < |rs| && to < |rs|
  {
    var avoid := if 0 <= back < |rs| then rs[back].number else 0;
    && to in rs[from].adjacent
    && to != back
    && (avoid != target && IsAdjacentLabel(rs, from, target) ==> rs[to].number == target)
  }

  /** The room the arrow left before hop h's own starting room, or -1 on
      the first hop. */
  function Back(trail: seq<nat>, h: int): int
    requires 0 <= h < |trail|
  {
    if h == 0 then -1 else trail[h - 1]
  }

  /** `trail` lists the rooms an arrow passes through, the shooter's first,
      and hop h, into `trail[h + 1]`, is aimed at `targets[h]`. */
  predicate IsArrowFlight(rs: seq<Room>, trail: seq<nat>, targets: seq<int>)
  {
    && 1 <= |trail| <= |targets| + 1
    && (forall k :: 0 <= k < |trail| ==> trail[k] < |rs|)
    && (forall h :: 0 <= h < |trail| - 1 ==> IsHop(rs, Back(trail, h), trail[h], trail[h + 1], targets[h]))
  }

  /** A flight grows by one more hop. */
  lemma ArrowFlightExtend(rs: seq<Room>, trail: seq<nat>, targets: seq<int>, next: nat)
    requires IsArrowFlight(rs, trail, targets) && |trail| <= |targets| && next < |rs|
    requires IsHop(rs, Back(trail, |trail| - 1), trail[|trail| - 1], next, targets[|trail| - 1])
    ensures IsArrowFlight(rs, trail + [next], targets)
  {
    var t := trail + [next];
    forall h | 0 <= h < |t| - 1
      ensures IsHop(rs, Back(t, h), t[h], t[h + 1], targets[h])
    {
      assert Back(t, h) == Back(trail, h) && t[h] == trail[h];
    }
  }

  /** What a flight is, room by room: every hop follows a tunnel and none
      goes straight back. */
  lemma ArrowFlightHops(rs: seq<Room>, trail: seq<nat>, targets: seq<int>)
    requires IsArrowFlight(rs, trail, targets)
    ensures forall k :: 0 <= k < |trail| - 1 ==> trail[k + 1] in rs[trail[k]].adjacent
    ensures forall k :: 0 <= k < |trail| - 2 ==> trail[k + 2] != trail[k]
  {
    forall k | 0 <= k < |trail| - 2
      ensures trail[k + 2] != trail[k]
    {
      assert IsHop(rs, Back(trail, k + 1), trail[k + 1], trail[k + 2], targets[k + 1]);
    }
  }

  /** In a well-formed cave two neighbours of a room are never neighbours of
      each other. */
  lemma CaveTriangleFree(rs: seq<Room>)
    requires WellFormed(rs)
    ensures forall i, j, m ::
              0 <= i < |rs| && j in rs[i].adjacent && m in rs[i].adjacent
              ==> 0 <= j < |rs| && m !in rs[j].adjacent
  {
    ConnectionsTriangleFree();
    TunnelsAreTable(rs);
  }

  /** An arrow of range ArrowRange can never come back to the shooter: the
      first hop leaves the room, the second cannot reverse, and a return on
      the third would close a triangle, which the cave does not have. */
  lemma ArrowNeverReturns(rs: seq<Room>, trail: seq<nat>, targets: seq<int>)
    requires WellFormed(rs) && IsArrowFlight(rs, trail, targets) && |trail| <= ArrowRange + 1
    ensures trail[0] !in trail[1..]
  {
    ArrowFlightHops(rs, trail, targets);
    CaveAdjacencySymmetric(rs);
    CaveTriangleFree(rs);
    if |trail| > 1 {
      assert trail[1] in rs[trail[0]].adjacent;
    }
    if |trail| > 3 {
      assert trail[2] in rs[trail[1]].adjacent && trail[3] in rs[trail[2]].adjacent;
    }
  }

  /** In the random fallback of a hop at least two of the three neighbours
      are acceptable, since their labels are distinct and at most one equals
      the label just left; so the redraw loop has something to find. */
  lemma FallbackHasCandidates(labels: seq<int>, previous: int)
    requires |labels| == ConnectionsPerRoom && Distinct(labels)
    ensures |set x | 0 <= x < |labels| && labels[x] != previous| >= 2
    ensures exists x :: 0 <= x < |labels| && labels[x] != previous
  {
    var ok := set x | 0 <= x < |labels| && labels[x] != previous;
    if labels[0] == previous {
      assert ok == {1, 2};
    } else if labels[1] == previous {
      assert ok == {0, 2};
    } else {
      assert {0, 1} <= ok;
      SubsetCard({0, 1}, ok);
    }
  }
}
