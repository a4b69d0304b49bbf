/**
  Connectivity of the room-and-corridor map (src/grid.rs, new_room_based_grid): each
  L-shaped corridor leads from its point in one room to its point in the next room of
  the chain, and so every cell of every placed room can be reached from every other.
*/
module Connect {
  import opened Tiles
  import opened Board
  import opened Reach
  import opened Rooms

  /**
    A corridor whose cells and whose far end let the fill in leads from p1 to p2. When
    the corridor runs right and then down, its bend (p2.0, p1.1) is never floored and
    the walk turns with a diagonal step.
  */
  lemma CorridorReach(m: Matrix, p1: Coord, p2: Coord)
    requires IsGrid(m) && InBounds(p1) && InBounds(p2) && !BlocksFill(At(m, p2))
    requires forall c :: InBounds(c) && OnCorridor(p1, p2, c) ==> !BlocksFill(At(m, c))
    ensures Reachable(m, p2, p1)
  {
    var x1, y1, x2, y2 := p1.0, p1.1, p2.0, p2.1;
    if x1 < x2 {
      forall x | x1 < x <= x2 - 1
        ensures !BlocksFill(m[x][y1])
      {
        assert OnCorridor(p1, p2, (x, y1));
      }
      ReachRowRight(m, p1, y1, x1, x2 - 1);
    } else if x1 > x2 {
      forall x | x2 <= x < x1
        ensures !BlocksFill(m[x][y1])
      {
        assert OnCorridor(p1, p2, (x, y1));
      }
      ReachRowLeft(m, p1, y1, x2, x1);
    }
    if x1 < x2 && y1 > y2 {
      // from (x2 - 1, y1) diagonally to (x2, y1 - 1), then down the vertical run
      assert OnCorridor(p1, p2, (x2, y1 - 1));
      ReachableStep(m, (x2 - 1, y1), p1, (x2, y1 - 1));
      forall y | y2 <= y < y1 - 1
        ensures !BlocksFill(m[x2][y])
      {
        assert OnCorridor(p1, p2, (x2, y));
      }
      ReachColumnDown(m, p1, x2, y2, y1 - 1);
    } else {
      if x1 < x2 {
        // from (x2 - 1, y1) one step right onto the column of p2
        if y1 < y2 {
          assert OnCorridor(p1, p2, (x2, y1));
        }
        ReachableStep(m, (x2 - 1, y1), p1, (x2, y1));
      }
      assert Reachable(m, (x2, y1), p1);
      if y1 < y2 {
        forall y | y1 < y <= y2
          ensures !BlocksFill(m[x2][y])
        {
          if y < y2 {
            assert OnCorridor(p1, p2, (x2, y));
          }
        }
        ReachColumnUp(m, p1, x2, y1, y2);
      } else if y1 > y2 {
        forall y | y2 <= y < y1
          ensures !BlocksFill(m[x2][y])
        {
          assert OnCorridor(p1, p2, (x2, y));
        }
        ReachColumnDown(m, p1, x2, y2, y1);
      }
    }
  }

  /** Within a room whose cells all let the fill in, every cell reaches every other. */
  lemma WithinRoom(m: Matrix, r: Room, c: Coord, d: Coord)
    requires IsGrid(m) && InRoom(c, r) && InRoom(d, r)
    requires forall e :: InRoom(e, r) ==> InBounds(e) && !BlocksFill(At(m, e))
    ensures Reachable(m, d, c)
  {
    assert InRoom((d.0, c.1), r);
    if c.0 < d.0 {
      forall x | c.0 < x <= d.0
        ensures !BlocksFill(m[x][c.1])
      {
        assert InRoom((x, c.1), r);
      }
      ReachRowRight(m, c, c.1, c.0, d.0);
    } else if c.0 > d.0 {
      forall x | d.0 <= x < c.0
        ensures !BlocksFill(m[x][c.1])
      {
        assert InRoom((x, c.1), r);
      }
      ReachRowLeft(m, c, c.1, d.0, c.0);
    }
    if c.1 < d.1 {
      forall y | c.1 < y <= d.1
        ensures !BlocksFill(m[d.0][y])
      {
        assert InRoom((d.0, y), r);
      }
      ReachColumnUp(m, c, d.0, c.1, d.1);
    } else if c.1 > d.1 {
      forall y | d.1 <= y < c.1
        ensures !BlocksFill(m[d.0][y])
      {
        assert InRoom((d.0, y), r);
      }
      ReachColumnDown(m, c, d.0, d.1, c.1);
    }
  }

  /**
    The rooms of `s` and the corridors between consecutive ones let the fill in, and
    corridor k runs from a cell of room k to a cell of room k + 1.
  */
  ghost predicate Linked(m: Matrix, s: seq<Room>, targets: seq<(Coord, Coord)>)
    requires IsGrid(m)
  {
    (forall k, c :: 0 <= k < |s| && InRoom(c, s[k]) ==> InBounds(c) && !BlocksFill(At(m, c))) &&
    |targets| + 1 >= |s| &&
    (forall k {:trigger targets[k]} :: 0 <= k < |s| - 1 ==> InRoom(targets[k].0, s[k]) && InRoom(targets[k].1, s[k + 1])) &&
    (forall k, c :: 0 <= k < |s| - 1 && InBounds(c) && OnCorridor(targets[k].0, targets[k].1, c) ==>
      !BlocksFill(At(m, c)))
  }

  /** Along a linked chain, any cell of room i reaches any cell of a later room j. */
  lemma {:induction false} ChainReach(m: Matrix, s: seq<Room>, targets: seq<(Coord, Coord)>,
                                      i: nat, j: nat, c: Coord, d: Coord)
    requires IsGrid(m) && Linked(m, s, targets) && i <= j < |s| && InRoom(c, s[i]) && InRoom(d, s[j])
    ensures Reachable(m, d, c)
    decreases j - i
  {
    if i == j {
      WithinRoom(m, s[i], c, d);
    } else {
      var p1, p2 := targets[i].0, targets[i].1;
      assert InRoom(p1, s[i]) && InRoom(p2, s[i + 1]);
      assert InBounds(p2) && !BlocksFill(At(m, p2));
      WithinRoom(m, s[i], c, p1);
      CorridorReach(m, p1, p2);
      ReachableTrans(m, p2, p1, c);
      ChainReach(m, s, targets, i + 1, j, p2, d);
      ReachableTrans(m, d, p2, c);
    }
  }

  /** Every cell of a shuffled room is a cell of one of the rooms. */
  lemma ShuffledRoomsFloored(m: Matrix, rooms: seq<Room>, perm: seq<nat>)
    requires IsGrid(m) && IsPermutation(perm, |rooms|)
    requires forall i :: 0 <= i < |rooms| ==> rooms[i].x + rooms[i].w <= GRID_SIZE && rooms[i].y + rooms[i].h <= GRID_SIZE
    requires forall c :: InBounds(c) && InAnyRoom(rooms, c) ==> At(m, c) == Floor
    ensures forall k, c :: 0 <= k < |rooms| && InRoom(c, Shuffle(rooms, perm)[k]) ==>
      InBounds(c) && !BlocksFill(At(m, c))
  {
    var s := Shuffle(rooms, perm);
    forall k, c | 0 <= k < |rooms| && InRoom(c, s[k])
      ensures InBounds(c) && !BlocksFill(At(m, c))
    {
      var r := perm[k];
      assert s[k] == rooms[r];
      assert InAnyRoom(rooms, c);
    }
  }

  /** Corridor k of the chain runs from shuffled room k to shuffled room k + 1. */
  lemma ChainEnds(s: seq<Room>, targets: seq<(Coord, Coord)>)
    requires |s| >= 1 && TargetsInRooms(s, Chain(|s|), targets)
    ensures |targets| + 1 >= |s|
    ensures forall k {:trigger targets[k]} :: 0 <= k < |s| - 1 ==> InRoom(targets[k].0, s[k]) && InRoom(targets[k].1, s[k + 1])
  {
    var edges := Chain(|s|);
    forall k | 0 <= k < |s| - 1
      ensures InRoom(targets[k].0, s[k]) && InRoom(targets[k].1, s[k + 1])
    {
      assert edges[k] == (k, k + 1);
    }
  }

  /** The cells of the first n corridors let the fill in. */
  lemma CorridorsFloored(m: Matrix, targets: seq<(Coord, Coord)>, n: nat)
    requires IsGrid(m)
    requires forall c :: InBounds(c) && OnAnyCorridor(targets, n, c) ==> At(m, c) == Floor
    ensures forall k, c :: 0 <= k < n && k < |targets| && InBounds(c) && OnCorridor(targets[k].0, targets[k].1, c) ==>
      !BlocksFill(At(m, c))
  {
    forall k, c | 0 <= k < n && k < |targets| && InBounds(c) && OnCorridor(targets[k].0, targets[k].1, c)
      ensures !BlocksFill(At(m, c))
    {
      assert OnAnyCorridor(targets, n, c);
    }
  }

  /**
    A map that is Floor on every room and on the corridors of the chain's n - 1 edges
    links the shuffled rooms along the chain.
  */
  lemma LinkedOf(m: Matrix, rooms: seq<Room>, perm: seq<nat>, targets: seq<(Coord, Coord)>)
    requires IsGrid(m) && |rooms| >= 1 && IsPermutation(perm, |rooms|)
    requires forall i :: 0 <= i < |rooms| ==> rooms[i].x + rooms[i].w <= GRID_SIZE && rooms[i].y + rooms[i].h <= GRID_SIZE
    requires TargetsInRooms(Shuffle(rooms, perm), Chain(|rooms|), targets)
    requires forall c :: InBounds(c) && InAnyRoom(rooms, c) ==> At(m, c) == Floor
    requires forall c :: InBounds(c) && OnAnyCorridor(targets, |rooms| - 1, c) ==> At(m, c) == Floor
    ensures Linked(m, Shuffle(rooms, perm), targets)
  {
    var s := Shuffle(rooms, perm);
    ShuffledRoomsFloored(m, rooms, perm);
    assert forall k, c :: 0 <= k < |s| && InRoom(c, s[k]) ==> InBounds(c) && !BlocksFill(At(m, c));
    ChainEnds(s, targets);
    CorridorsFloored(m, targets, |s| - 1);
    assert forall k, c :: 0 <= k < |s| - 1 && InBounds(c) && OnCorridor(targets[k].0, targets[k].1, c) ==>
      !BlocksFill(At(m, c));
  }

  /** The generated map links the shuffled rooms along the chain. */
  lemma GeneratedLinked(roomCount: nat, minSize: Size, maxSize: Size,
                        cands: seq<Room>, perm: seq<nat>, targets: seq<(Coord, Coord)>)
    requires SamplesValid(roomCount, minSize, maxSize, cands, perm, targets)
    ensures Linked(RoomBasedGrid(roomCount, cands, targets), Shuffle(PlanRooms(cands, roomCount), perm), targets)
  {
    var rooms := PlanRooms(cands, roomCount);
    var n := |rooms|;
    var m := RoomBasedGrid(roomCount, cands, targets);
    PlanRoomsSound(cands, roomCount, minSize, maxSize);
    assert m == RoomGrid(rooms, targets, n - 1);
    forall i | 0 <= i < n
      ensures rooms[i].x + rooms[i].w <= GRID_SIZE && rooms[i].y + rooms[i].h <= GRID_SIZE
    {
      assert ValidCandidate(rooms[i], minSize, maxSize);
    }
    forall c | InBounds(c)
      ensures (InAnyRoom(rooms, c) || OnAnyCorridor(targets, n - 1, c)) ==> At(m, c) == Floor
    {
      RoomGridAt(rooms, targets, n - 1, c);
    }
    LinkedOf(m, rooms, perm, targets);
  }

  /** On a linked map, corridor k leads from its point in room k to its point in room k + 1. */
  lemma ChainNeighbours(m: Matrix, s: seq<Room>, targets: seq<(Coord, Coord)>, k: nat)
    requires IsGrid(m) && Linked(m, s, targets) && k + 1 < |s|
    ensures k < |targets|
    ensures Reachable(m, targets[k].1, targets[k].0)
  {
    assert InRoom(targets[k].0, s[k]) && InRoom(targets[k].1, s[k + 1]);
    ChainReach(m, s, targets, k, k + 1, targets[k].0, targets[k].1);
  }

  /** Every corridor of the generated map leads from its point in one room to its point in the next. */
  lemma CorridorsConnect(roomCount: nat, minSize: Size, maxSize: Size,
                         cands: seq<Room>, perm: seq<nat>, targets: seq<(Coord, Coord)>, k: nat)
    requires SamplesValid(roomCount, minSize, maxSize, cands, perm, targets)
    requires k < |Chain(|PlanRooms(cands, roomCount)|)|
    ensures k < |targets|
    ensures Reachable(RoomBasedGrid(roomCount, cands, targets), targets[k].1, targets[k].0)
  {
    var rooms := PlanRooms(cands, roomCount);
    assert |Chain(|rooms|)| == |rooms| - 1;
    GeneratedLinked(roomCount, minSize, maxSize, cands, perm, targets);
    ChainNeighbours(RoomBasedGrid(roomCount, cands, targets), Shuffle(rooms, perm), targets, k);
  }

  /** On a linked map of the shuffled rooms, every cell of a room reaches every cell of a room. */
  lemma LinkedConnected(m: Matrix, rooms: seq<Room>, perm: seq<nat>, targets: seq<(Coord, Coord)>, c: Coord, d: Coord)
    requires IsGrid(m) && IsPermutation(perm, |rooms|) && Linked(m, Shuffle(rooms, perm), targets)
    requires InAnyRoom(rooms, c) && InAnyRoom(rooms, d)
    ensures Reachable(m, d, c)
  {
    var n := |rooms|;
    var s := Shuffle(rooms, perm);
    var rc :| 0 <= rc < n && InRoom(c, rooms[rc]);
    var rd :| 0 <= rd < n && InRoom(d, rooms[rd]);
    PermutationOnto(perm, n, rc);
    PermutationOnto(perm, n, rd);
    var i :| 0 <= i < n && perm[i] == rc;
    var j :| 0 <= j < n && perm[j] == rd;
    assert s[i] == rooms[rc] && s[j] == rooms[rd];
    if i <= j {
      ChainReach(m, s, targets, i, j, c, d);
    } else {
      ChainReach(m, s, targets, j, i, d, c);
      assert InRoom(d, s[j]);
      ReachableSym(m, c, d);
    }
  }

  /** On the generated map, every cell of a placed room can be reached from every cell of a placed room. */
  lemma RoomsConnected(roomCount: nat, minSize: Size, maxSize: Size,
                       cands: seq<Room>, perm: seq<nat>, targets: seq<(Coord, Coord)>, c: Coord, d: Coord)
    requires SamplesValid(roomCount, minSize, maxSize, cands, perm, targets)
    requires InAnyRoom(PlanRooms(cands, roomCount), c) && InAnyRoom(PlanRooms(cands, roomCount), d)
    ensures Reachable(RoomBasedGrid(roomCount, cands, targets), d, c)
  {
    GeneratedLinked(roomCount, minSize, maxSize, cands, perm, targets);
    LinkedConnected(RoomBasedGrid(roomCount, cands, targets), PlanRooms(cands, roomCount), perm, targets, c, d);
  }

  /** On the generated map, every pair of cells of placed rooms is connected. */
  lemma RoomMapConnected(roomCount: nat, minSize: Size, maxSize: Size,
                         cands: seq<Room>, perm: seq<nat>, targets: seq<(Coord, Coord)>)
    requires SamplesValid(roomCount, minSize, maxSize, cands, perm, targets)
    ensures forall c, d :: InAnyRoom(PlanRooms(cands, roomCount), c) && InAnyRoom(PlanRooms(cands, roomCount), d) ==>
      Reachable(RoomBasedGrid(roomCount, cands, targets), d, c)
  {
    forall c, d | InAnyRoom(PlanRooms(cands, roomCount), c) && InAnyRoom(PlanRooms(cands, roomCount), d)
      ensures Reachable(RoomBasedGrid(roomCount, cands, targets), d, c)
    {
      RoomsConnected(roomCount, minSize, maxSize, cands, perm, targets, c, d);
    }
  }
}
