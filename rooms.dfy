/**
  The room-and-corridor generator (src/grid.rs, new_room_based_grid): rooms placed by
  rejection sampling, a chain of edges over the shuffled rooms, and an L-shaped
  corridor for every edge. Samples of the random generator are given as sequences.
*/
module Rooms {
  import opened Tiles
  import opened Board

  /** The cap on placement attempts, shared by all rooms. */
  const MAX_ATTEMPTS: nat := 1000

  /** A room ((x, y), (w, h)): columns x .. x+w-1 and rows y .. y+h-1. Candidates have the same shape. */
  datatype Room = Room(x: nat, y: nat, w: nat, h: nat)

  /** A (width, height) pair. */
  type Size = (nat, nat)

  predicate InRoom(c: Coord, r: Room)
  {
    r.x <= c.0 < r.x + r.w && r.y <= c.1 < r.y + r.h
  }

  /** The rejection test of a candidate `c` against an accepted room `r` (strict, half-open). */
  predicate Overlaps(c: Room, r: Room)
  {
    c.x < r.x + r.w && c.x + c.w > r.x && c.y < r.y + r.h && c.y + c.h > r.y
  }

  /** Rooms that pass the test share no cell. */
  lemma SeparateRoomsShareNoCell(c: Room, r: Room, cell: Coord)
    requires !Overlaps(c, r)
    ensures !(InRoom(cell, c) && InRoom(cell, r))
  {
  }

  /** Two non-empty rooms that fail the test share a cell. */
  lemma OverlappingRoomsShareCell(c: Room, r: Room)
    requires Overlaps(c, r) && c.w > 0 && c.h > 0 && r.w > 0 && r.h > 0
    ensures exists cell :: InRoom(cell, c) && InRoom(cell, r)
  {
    var cell := (if c.x < r.x then r.x else c.x, if c.y < r.y then r.y else c.y);
    assert InRoom(cell, c) && InRoom(cell, r);
  }

  /**
    A sample the generator can draw: width and height from the half-open size ranges,
    origin from 0 .. GRID_SIZE - size, so that the room ends strictly inside the map.
  */
  predicate ValidCandidate(c: Room, minSize: Size, maxSize: Size)
  {
    minSize.0 <= c.w < maxSize.0 && minSize.1 <= c.h < maxSize.1 &&
    c.x + c.w < GRID_SIZE && c.y + c.h < GRID_SIZE
  }

  predicate OverlapsAny(c: Room, rooms: seq<Room>)
  {
    exists i :: 0 <= i < |rooms| && Overlaps(c, rooms[i])
  }

  /**
    One placement attempt with candidate `c`: it is kept when fewer than `roomCount`
    rooms are placed and it overlaps none of them. Once `roomCount` rooms are placed,
    further attempts change nothing, just as the loop stops.
  */
  function Attempt(rooms: seq<Room>, c: Room, roomCount: nat): seq<Room>
  {
    if |rooms| < roomCount && !OverlapsAny(c, rooms) then rooms + [c] else rooms
  }

  /** The rooms accepted after the first n attempts on the candidate stream `cands`. */
  function PlanPrefix(cands: seq<Room>, roomCount: nat, n: nat): seq<Room>
    requires n <= |cands|
  {
    if n == 0 then [] else Attempt(PlanPrefix(cands, roomCount, n - 1), cands[n - 1], roomCount)
  }

  /** The rooms the placement loop accepts: the outcome of all MAX_ATTEMPTS attempts. */
  function PlanRooms(cands: seq<Room>, roomCount: nat): seq<Room>
    requires MAX_ATTEMPTS <= |cands|
  {
    PlanPrefix(cands, roomCount, MAX_ATTEMPTS)
  }

  /** Once `roomCount` rooms are placed, later attempts keep them: the loop may stop early. */
  lemma {:induction false} PlanPrefixFull(cands: seq<Room>, roomCount: nat, n: nat, k: nat)
    requires n <= k <= |cands| && |PlanPrefix(cands, roomCount, n)| >= roomCount
    ensures PlanPrefix(cands, roomCount, k) == PlanPrefix(cands, roomCount, n)
    decreases k - n
  {
    if n < k {
      assert PlanPrefix(cands, roomCount, n + 1) == PlanPrefix(cands, roomCount, n);
      PlanPrefixFull(cands, roomCount, n + 1, k);
    }
  }

  /** No later room fails the overlap test against an earlier one. */
  predicate Separate(rooms: seq<Room>)
  {
    forall i, j :: 0 <= i < j < |rooms| ==> !Overlaps(rooms[j], rooms[i])
  }

  /** No cell lies in two different rooms. */
  ghost predicate Disjoint(rooms: seq<Room>)
  {
    forall i, j, c :: 0 <= i < |rooms| && 0 <= j < |rooms| && i != j && InRoom(c, rooms[i]) ==> !InRoom(c, rooms[j])
  }

  lemma SeparateIsDisjoint(rooms: seq<Room>)
    requires Separate(rooms)
    ensures Disjoint(rooms)
  {
    forall i, j, c | 0 <= i < |rooms| && 0 <= j < |rooms| && i != j && InRoom(c, rooms[i])
      ensures !InRoom(c, rooms[j])
    {
      if i < j {
        SeparateRoomsShareNoCell(rooms[j], rooms[i], c);
      } else {
        SeparateRoomsShareNoCell(rooms[i], rooms[j], c);
      }
    }
  }

  /**
    After n attempts: at most `roomCount` rooms, at least one once an attempt has been
    made and one is asked for, each a candidate drawn in those attempts and valid,
    and no later room overlapping an earlier one.
  */
  lemma {:induction false} PlanPrefixSound(cands: seq<Room>, roomCount: nat, n: nat, minSize: Size, maxSize: Size)
    requires n <= |cands|
    requires forall i :: 0 <= i < |cands| ==> ValidCandidate(cands[i], minSize, maxSize)
    ensures var r := PlanPrefix(cands, roomCount, n);
      Separate(r) && |r| <= roomCount && (n >= 1 && roomCount >= 1 ==> |r| >= 1) &&
      (forall i :: 0 <= i < |r| ==> ValidCandidate(r[i], minSize, maxSize)) &&
      (forall i :: 0 <= i < |r| ==> r[i] in cands[..n])
  {
    if n > 0 {
      PlanPrefixSound(cands, roomCount, n - 1, minSize, maxSize);
      var p, c := PlanPrefix(cands, roomCount, n - 1), cands[n - 1];
      var r := PlanPrefix(cands, roomCount, n);
      assert r == Attempt(p, c, roomCount);
      forall i | 0 <= i < |r|
        ensures r[i] in cands[..n]
      {
        if i < |p| {
          var j :| 0 <= j < n - 1 && p[i] == cands[..n - 1][j];
          assert r[i] == cands[..n][j];
        } else {
          assert r[i] == cands[..n][n - 1];
        }
      }
      if |p| < roomCount && !OverlapsAny(c, p) {
        forall i, j | 0 <= i < j < |r|
          ensures !Overlaps(r[j], r[i])
        {
          if j == |p| {
            assert r[i] == p[i];
          }
        }
      }
    }
  }

  /**
    What the placement loop promises: at most `roomCount` rooms, at least one when one
    is asked for, each a drawn candidate that ends inside the map, no two sharing a cell.
  */
  lemma PlanRoomsSound(cands: seq<Room>, roomCount: nat, minSize: Size, maxSize: Size)
    requires MAX_ATTEMPTS <= |cands|
    requires forall i :: 0 <= i < |cands| ==> ValidCandidate(cands[i], minSize, maxSize)
    ensures |PlanRooms(cands, roomCount)| <= roomCount
    ensures roomCount >= 1 ==> |PlanRooms(cands, roomCount)| >= 1
    ensures forall i :: 0 <= i < |PlanRooms(cands, roomCount)| ==>
      ValidCandidate(PlanRooms(cands, roomCount)[i], minSize, maxSize) &&
      PlanRooms(cands, roomCount)[i] in cands[..MAX_ATTEMPTS]
    ensures Disjoint(PlanRooms(cands, roomCount))
  {
    PlanPrefixSound(cands, roomCount, MAX_ATTEMPTS, minSize, maxSize);
    SeparateIsDisjoint(PlanRooms(cands, roomCount));
  }

  /** `perm` lists each of 0 .. n-1 exactly once. */
  predicate IsPermutation(perm: seq<nat>, n: nat)
  {
    |perm| == n && (forall i :: 0 <= i < n ==> perm[i] < n) &&
    (forall i, j :: 0 <= i < j < n ==> perm[i] != perm[j])
  }

  /** A subset of a finite set is no larger, and one of the same size is the whole set. */
  lemma {:induction false} SubsetSize(a: set<nat>, b: set<nat>)
    requires a <= b
    ensures |a| <= |b|
    ensures |a| == |b| ==> a == b
    decreases a
  {
    if a != {} {
      var x :| x in a;
      SubsetSize(a - {x}, b - {x});
      assert |a - {x}| == |a| - 1 && |b - {x}| == |b| - 1;
      if |a| == |b| {
        assert a == (a - {x}) + {x} && b == (b - {x}) + {x};
      }
    } else if |b| == 0 {
      assert b == {};
    }
  }

  /** The values perm[0 .. k-1] are k different numbers. */
  lemma {:induction false} ImageSize(perm: seq<nat>, n: nat, k: nat)
    requires IsPermutation(perm, n) && k <= n
    ensures |set i | 0 <= i < k :: perm[i]| == k
  {
    if k > 0 {
      ImageSize(perm, n, k - 1);
      var before := set i | 0 <= i < k - 1 :: perm[i];
      assert (set i | 0 <= i < k :: perm[i]) == before + {perm[k - 1]};
      assert perm[k - 1] !in before;
    }
  }

  /** The numbers 0 .. k-1. */
  ghost function Below(k: nat): (r: set<nat>)
    ensures |r| == k
    ensures forall v: int :: v in r <==> 0 <= v < k
  {
    if k == 0 then {} else Below(k - 1) + {k - 1}
  }

  /** A permutation reaches every position: each of 0 .. n-1 is perm[i] for some i. */
  lemma PermutationOnto(perm: seq<nat>, n: nat, v: nat)
    requires IsPermutation(perm, n) && v < n
    ensures exists i :: 0 <= i < n && perm[i] == v
  {
    var image := set i | 0 <= i < n :: perm[i];
    ImageSize(perm, n, n);
    SubsetSize(image, Below(n));
    assert v in Below(n);
  }

  /** The room list reordered by the shuffle: position i holds room perm[i]. */
  function Shuffle(rooms: seq<Room>, perm: seq<nat>): (r: seq<Room>)
    requires IsPermutation(perm, |rooms|)
    ensures |r| == |rooms|
  {
    seq(|rooms|, i requires 0 <= i < |rooms| => rooms[perm[i]])
  }

  /** Shuffling keeps the rooms disjoint. */
  lemma ShuffleDisjoint(rooms: seq<Room>, perm: seq<nat>)
    requires IsPermutation(perm, |rooms|) && Disjoint(rooms)
    ensures Disjoint(Shuffle(rooms, perm))
  {
    var s := Shuffle(rooms, perm);
    forall i, j, c | 0 <= i < |s| && 0 <= j < |s| && i != j && InRoom(c, s[i])
      ensures !InRoom(c, s[j])
    {
      if i < j {
        assert perm[i] != perm[j];
      } else {
        assert perm[j] != perm[i];
      }
    }
  }

  /** The edge list the spanning loop builds over n rooms: each room linked to the next one. */
  function Chain(n: nat): (e: seq<(nat, nat)>)
  {
    seq(if n == 0 then 0 else n - 1, k => (k, k + 1))
  }

  /** The chain touches every room and links consecutive rooms. */
  lemma ChainSpans(n: nat)
    requires n >= 2
    ensures |Chain(n)| == n - 1
    ensures forall i :: 0 <= i < n - 1 ==> Chain(n)[i].0 == i && Chain(n)[i].1 == i + 1
    ensures forall i :: 0 <= i < n ==> (i < n - 1 && Chain(n)[i].0 == i) || (0 < i && Chain(n)[i - 1].1 == i)
  {
  }

  /** The two random points of every edge lie inside their rooms, as the sampling ranges ensure. */
  predicate TargetsInRooms(rooms: seq<Room>, edges: seq<(nat, nat)>, targets: seq<(Coord, Coord)>)
  {
    |targets| >= |edges| &&
    forall k :: 0 <= k < |edges| ==>
      edges[k].0 < |rooms| && edges[k].1 < |rooms| &&
      InRoom(targets[k].0, rooms[edges[k].0]) && InRoom(targets[k].1, rooms[edges[k].1])
  }

  function Min(a: nat, b: nat): nat { if a < b then a else b }
  function Max(a: nat, b: nat): nat { if a < b then b else a }

  /**
    The cells the corridor from p1 to p2 floors: the horizontal run on row p1.1 over
    [min, max) of the two columns, p1 itself, and the vertical run on column p2.0 over
    [min, max) of the two rows.
  */
  predicate OnCorridor(p1: Coord, p2: Coord, c: Coord)
  {
    (c.1 == p1.1 && Min(p1.0, p2.0) <= c.0 < Max(p1.0, p2.0)) ||
    c == p1 ||
    (c.0 == p2.0 && Min(p1.1, p2.1) <= c.1 < Max(p1.1, p2.1))
  }

  /** Cell `c` is on one of the corridors of the first n edges. */
  predicate OnAnyCorridor(targets: seq<(Coord, Coord)>, n: nat, c: Coord)
  {
    exists k :: 0 <= k < n && k < |targets| && OnCorridor(targets[k].0, targets[k].1, c)
  }

  predicate InAnyRoom(rooms: seq<Room>, c: Coord)
  {
    exists i :: 0 <= i < |rooms| && InRoom(c, rooms[i])
  }

  /** One more room in the prefix adds exactly its cells. */
  lemma InAnyRoomPrefix(rooms: seq<Room>, k: nat, c: Coord)
    requires k < |rooms|
    ensures InAnyRoom(rooms[..k + 1], c) <==> InAnyRoom(rooms[..k], c) || InRoom(c, rooms[k])
  {
    if InRoom(c, rooms[k]) {
      assert rooms[..k + 1][k] == rooms[k];
    }
    if InAnyRoom(rooms[..k], c) {
      var i :| 0 <= i < k && InRoom(c, rooms[..k][i]);
      assert rooms[..k + 1][i] == rooms[..k][i];
    }
    if InAnyRoom(rooms[..k + 1], c) && !InRoom(c, rooms[k]) {
      var i :| 0 <= i < k + 1 && InRoom(c, rooms[..k + 1][i]);
      assert rooms[..k][i] == rooms[..k + 1][i];
    }
  }

  /** One more edge adds exactly the cells of its corridor. */
  lemma OnAnyCorridorStep(targets: seq<(Coord, Coord)>, k: nat, c: Coord)
    requires k < |targets|
    ensures OnAnyCorridor(targets, k + 1, c) <==>
      OnAnyCorridor(targets, k, c) || OnCorridor(targets[k].0, targets[k].1, c)
  {
  }

  /** A map that is Floor exactly on the rooms and on the corridors of the first n edges, Wall elsewhere. */
  function RoomGrid(rooms: seq<Room>, targets: seq<(Coord, Coord)>, n: nat): (m: Matrix)
    ensures IsGrid(m) && WallFloorOnly(m)
  {
    seq(GRID_SIZE, x requires 0 <= x < GRID_SIZE =>
      seq(GRID_SIZE, y requires 0 <= y < GRID_SIZE =>
        if InAnyRoom(rooms, (x, y)) || OnAnyCorridor(targets, n, (x, y)) then Floor else Wall))
  }

  /** A cell of the room map. */
  lemma RoomGridAt(rooms: seq<Room>, targets: seq<(Coord, Coord)>, n: nat, c: Coord)
    requires InBounds(c)
    ensures At(RoomGrid(rooms, targets, n), c) ==
      if InAnyRoom(rooms, c) || OnAnyCorridor(targets, n, c) then Floor else Wall
  {
  }

  /** `m` with every cell of every room floored: the carving loop's effect. */
  function CarveRoomCells(m: Matrix, rooms: seq<Room>): (r: Matrix)
    requires IsGrid(m)
    ensures IsGrid(r)
    ensures forall x, y :: 0 <= x < GRID_SIZE && 0 <= y < GRID_SIZE ==>
      r[x][y] == if InAnyRoom(rooms, (x, y)) then Floor else m[x][y]
  {
    seq(GRID_SIZE, x requires 0 <= x < GRID_SIZE =>
      seq(GRID_SIZE, y requires 0 <= y < GRID_SIZE => if InAnyRoom(rooms, (x, y)) then Floor else m[x][y]))
  }

  /** `m` with the corridors of the first n edges floored: the corridor loop's effect. */
  function CarveCorridorCells(m: Matrix, targets: seq<(Coord, Coord)>, n: nat): (r: Matrix)
    requires IsGrid(m)
    ensures IsGrid(r)
    ensures forall x, y :: 0 <= x < GRID_SIZE && 0 <= y < GRID_SIZE ==>
      r[x][y] == if OnAnyCorridor(targets, n, (x, y)) then Floor else m[x][y]
  {
    seq(GRID_SIZE, x requires 0 <= x < GRID_SIZE =>
      seq(GRID_SIZE, y requires 0 <= y < GRID_SIZE => if OnAnyCorridor(targets, n, (x, y)) then Floor else m[x][y]))
  }

  /** Carving rooms and then corridors into an all-Wall map gives the room map. */
  lemma RoomGridIsCarved(rooms: seq<Room>, targets: seq<(Coord, Coord)>, n: nat)
    ensures CarveCorridorCells(CarveRoomCells(Uniform(Wall), rooms), targets, n) == RoomGrid(rooms, targets, n)
  {
    Extensionality(CarveCorridorCells(CarveRoomCells(Uniform(Wall), rooms), targets, n), RoomGrid(rooms, targets, n));
  }

  /**
    What the random source must deliver for the generator to finish without a panic:
    a room is asked for (otherwise the spanning loop indexes an empty list), every
    candidate is drawn from its ranges, `perm` reorders the accepted rooms, and each
    edge's two points are drawn inside its two rooms.
  */
  predicate SamplesValid(roomCount: nat, minSize: Size, maxSize: Size,
                         cands: seq<Room>, perm: seq<nat>, targets: seq<(Coord, Coord)>)
  {
    roomCount >= 1 && MAX_ATTEMPTS <= |cands| &&
    (forall i :: 0 <= i < |cands| ==> ValidCandidate(cands[i], minSize, maxSize)) &&
    var rooms := PlanRooms(cands, roomCount);
    IsPermutation(perm, |rooms|) &&
    TargetsInRooms(Shuffle(rooms, perm), Chain(|rooms|), targets)
  }

  /** The room generator's result: rooms carved in placement order, one corridor per chain edge. */
  function RoomBasedGrid(roomCount: nat, cands: seq<Room>, targets: seq<(Coord, Coord)>): (m: Matrix)
    requires MAX_ATTEMPTS <= |cands|
    ensures IsGrid(m)
  {
    var rooms := PlanRooms(cands, roomCount);
    RoomGrid(rooms, targets, |Chain(|rooms|)|)
  }
}
