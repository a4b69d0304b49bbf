/**
  The map itself (src/grid.rs, struct Grid): a 64x64 tile array with its generators,
  the printer, the flood-fill reachability check and stair placement. Random draws
  arrive as caller-supplied samples; each method is proved against the value-level
  definitions in TextFormat, Cave, Rooms, Reach and Stairs.
*/
module Grid {
  import opened Tiles
  import opened Board
  import opened TextFormat
  import opened Cave
  import opened Reach
  import opened Rooms
  import opened Stairs
  import opened Connect

  // ---------------------------------------------------------------- cave passes

  /**
    `a` holds the map `m`, cell by cell. This says the same as `Cells(a) == m`, but the
    pointwise form instantiates per cell, so the cave passes can carry it across writes
    to the other buffer without re-deriving an equality of nested sequences.
  */
  ghost predicate Holds(a: array2<TileType>, m: Matrix)
    requires IsSquare(a) && IsGrid(m)
    reads a
  {
    forall x, y :: 0 <= x < GRID_SIZE && 0 <= y < GRID_SIZE ==> a[x, y] == m[x][y]
  }

  /** The number of Wall tiles among the in-bounds 8-neighbours of (x, y). */
  method CountWalls(tiles: array2<TileType>, ghost m: Matrix, x: nat, y: nat) returns (wallCount: nat)
    requires IsSquare(tiles) && IsGrid(m) && Holds(tiles, m) && x < GRID_SIZE && y < GRID_SIZE
    ensures wallCount == WallCount(m, x, y)
  {
    wallCount := 0;
    for xOffset := -1 to 2
      invariant wallCount == BlockCount(m, x, y, xOffset + 1)
    {
      for yOffset := -1 to 2
        invariant wallCount == BlockCount(m, x, y, xOffset + 1) + ColumnCount(m, x, y, xOffset, yOffset + 1)
      {
        if xOffset == 0 && yOffset == 0 {
          continue;
        }
        var xPos, yPos := x + xOffset, y + yOffset;
        if xPos < 0 || xPos >= GRID_SIZE || yPos < 0 || yPos >= GRID_SIZE {
          continue;
        }
        if tiles[xPos, yPos] == Wall {
          wallCount := wallCount + 1;
        }
      }
    }
  }

  /** The 4-5 rule at one cell, read from the previous map. */
  method NextCell(tiles: array2<TileType>, ghost m: Matrix, x: nat, y: nat) returns (t: TileType)
    requires IsSquare(tiles) && IsGrid(m) && Holds(tiles, m) && x < GRID_SIZE && y < GRID_SIZE
    ensures t == Step(m)[x][y]
  {
    var wallCount := CountWalls(tiles, m, x, y);
    if tiles[x, y] == Wall {
      if wallCount >= 4 {
        t := Wall;
      } else {
        t := Floor;
      }
    } else {
      if wallCount >= 5 {
        t := Wall;
      } else {
        t := Floor;
      }
    }
  }

  /** Column x of one pass of the 4-5 rule, written into `newTiles` from the previous map `tiles`. */
  method SmoothColumn(tiles: array2<TileType>, ghost m: Matrix, newTiles: array2<TileType>, x: nat)
    requires IsSquare(tiles) && IsGrid(m) && Holds(tiles, m)
    requires IsSquare(newTiles) && tiles != newTiles && x < GRID_SIZE
    modifies newTiles
    ensures forall j :: 0 <= j < GRID_SIZE ==> newTiles[x, j] == Step(m)[x][j]
    ensures forall i, j :: 0 <= i < GRID_SIZE && 0 <= j < GRID_SIZE && i != x ==> newTiles[i, j] == old(newTiles[i, j])
  {
    for y := 0 to GRID_SIZE
      invariant forall j :: 0 <= j < y ==> newTiles[x, j] == Step(m)[x][j]
      invariant forall i, j :: 0 <= i < GRID_SIZE && 0 <= j < GRID_SIZE && i != x ==> newTiles[i, j] == old(newTiles[i, j])
    {
      var t := NextCell(tiles, m, x, y);
      newTiles[x, y] := t;
    }
  }

  /** One pass of the 4-5 rule into a fresh array, reading only the previous one. */
  method SmoothPass(tiles: array2<TileType>) returns (newTiles: array2<TileType>)
    requires IsSquare(tiles)
    ensures fresh(newTiles) && IsSquare(newTiles)
    ensures Cells(newTiles) == Step(Cells(tiles))
  {
    ghost var m := Cells(tiles);
    ghost var s := Step(m);
    newTiles := new TileType[GRID_SIZE, GRID_SIZE]((_, _) => Floor);
    for x := 0 to GRID_SIZE
      invariant forall i, j :: 0 <= i < x && 0 <= j < GRID_SIZE ==> newTiles[i, j] == s[i][j]
    {
      SmoothColumn(tiles, m, newTiles, x);
    }
    Extensionality(Cells(newTiles), s);
  }

  // ---------------------------------------------------------------- room generator

  /** The scan over the accepted rooms, stopping at the first one the candidate overlaps. */
  method AnyOverlap(candidate: Room, rooms: seq<Room>) returns (roomOverlaps: bool)
    ensures roomOverlaps == OverlapsAny(candidate, rooms)
  {
    roomOverlaps := false;
    for i := 0 to |rooms|
      invariant forall j :: 0 <= j < i ==> !Overlaps(candidate, rooms[j])
    {
      if Overlaps(candidate, rooms[i]) {
        roomOverlaps := true;
        break;
      }
    }
  }

  /**
    The placement loop: candidate `attempts` is drawn on every attempt and accepted
    when it fails the overlap test against every room accepted so far.
  */
  method PlaceRooms(roomCount: nat, minSize: Size, maxSize: Size, cands: seq<Room>)
    returns (rooms: seq<Room>, attempts: nat)
    requires MAX_ATTEMPTS <= |cands|
    requires forall i :: 0 <= i < |cands| ==> ValidCandidate(cands[i], minSize, maxSize)
    ensures rooms == PlanRooms(cands, roomCount)
    ensures attempts <= MAX_ATTEMPTS && |rooms| <= roomCount
    ensures |rooms| == roomCount || attempts == MAX_ATTEMPTS
    ensures roomCount >= 1 ==> |rooms| >= 1
    ensures forall i :: 0 <= i < |rooms| ==> ValidCandidate(rooms[i], minSize, maxSize)
  {
    rooms := [];
    var roomsPlanned: nat := 0;
    attempts := 0;
    while roomsPlanned < roomCount && attempts < MAX_ATTEMPTS
      invariant attempts <= MAX_ATTEMPTS && roomsPlanned == |rooms| <= roomCount
      invariant rooms == PlanPrefix(cands, roomCount, attempts)
      invariant forall i :: 0 <= i < |rooms| ==> ValidCandidate(rooms[i], minSize, maxSize)
      invariant attempts >= 1 ==> |rooms| >= 1
      decreases MAX_ATTEMPTS - attempts
    {
      var candidate := cands[attempts];
      var roomOverlaps := AnyOverlap(candidate, rooms);
      if !roomOverlaps {
        rooms := rooms + [candidate];
        roomsPlanned := roomsPlanned + 1;
      }
      attempts := attempts + 1;
    }
    if attempts < MAX_ATTEMPTS {
      PlanPrefixFull(cands, roomCount, attempts, MAX_ATTEMPTS);
    }
  }

  /** Floors every cell of every room, leaving the others as they were. */
  method CarveRooms(tiles: array2<TileType>, rooms: seq<Room>)
    requires IsSquare(tiles)
    requires forall k :: 0 <= k < |rooms| ==> rooms[k].x + rooms[k].w <= GRID_SIZE && rooms[k].y + rooms[k].h <= GRID_SIZE
    modifies tiles
    ensures Cells(tiles) == CarveRoomCells(old(Cells(tiles)), rooms)
  {
    ghost var before := Cells(tiles);
    for k := 0 to |rooms|
      invariant forall x, y :: 0 <= x < GRID_SIZE && 0 <= y < GRID_SIZE ==>
        tiles[x, y] == if InAnyRoom(rooms[..k], (x, y)) then Floor else before[x][y]
    {
      var room := rooms[k];
      ghost var start := Cells(tiles);
      for x := room.x to room.x + room.w
        invariant forall i, j :: 0 <= i < GRID_SIZE && 0 <= j < GRID_SIZE ==>
          tiles[i, j] == if room.x <= i < x && room.y <= j < room.y + room.h then Floor else start[i][j]
      {
        for y := room.y to room.y + room.h
          invariant forall i, j :: 0 <= i < GRID_SIZE && 0 <= j < GRID_SIZE ==>
            tiles[i, j] == if (room.x <= i < x && room.y <= j < room.y + room.h) || (i == x && room.y <= j < y)
              then Floor else start[i][j]
        {
          tiles[x, y] := Floor;
        }
      }
      forall x, y | 0 <= x < GRID_SIZE && 0 <= y < GRID_SIZE
        ensures tiles[x, y] == if InAnyRoom(rooms[..k + 1], (x, y)) then Floor else before[x][y]
      {
        InAnyRoomPrefix(rooms, k, (x, y));
      }
    }
    assert rooms[..|rooms|] == rooms;
    Extensionality(Cells(tiles), CarveRoomCells(before, rooms));
  }

  /** The spanning loop over n rooms: a stack, a visited vector and the edges it records. */
  method SpanningChain(n: nat) returns (stree: seq<(nat, nat)>)
    requires n >= 1
    ensures stree == Chain(n)
  {
    stree := [];
    var visited := new bool[n](_ => false);
    var queue: seq<nat> := [0];
    ghost var done: nat := 0;
    while |queue| > 0
      invariant done <= n
      invariant forall i :: 0 <= i < n ==> visited[i] == (i < done)
      invariant if done < n then queue == [done] else queue == []
      invariant stree == seq(if done < n then done else n - 1, k => (k, k + 1))
      decreases n - done
    {
      var current := queue[|queue| - 1];
      queue := queue[..|queue| - 1];
      visited[current] := true;
      for i := 0 to n
        invariant i <= done + 1
        invariant queue == [] && stree == seq(done, k => (k, k + 1))
      {
        if i == current {
          continue;
        } else if visited[i] {
          continue;
        } else {
          queue := queue + [i];
          stree := stree + [(current, i)];
          assert stree == seq(done + 1, k => (k, k + 1));
          break;
        }
      }
      done := done + 1;
    }
  }

  /** The spanning loop over the shuffled rooms, then one corridor per edge. */
  method ConnectRooms(tiles: array2<TileType>, rooms: seq<Room>, perm: seq<nat>, targets: seq<(Coord, Coord)>)
    requires IsSquare(tiles) && |rooms| >= 1 && IsPermutation(perm, |rooms|)
    requires forall k :: 0 <= k < |rooms| ==> rooms[k].x + rooms[k].w <= GRID_SIZE && rooms[k].y + rooms[k].h <= GRID_SIZE
    requires TargetsInRooms(Shuffle(rooms, perm), Chain(|rooms|), targets)
    modifies tiles
    ensures Cells(tiles) == CarveCorridorCells(old(Cells(tiles)), targets, |Chain(|rooms|)|)
  {
    var stree := SpanningChain(|rooms|);
    var shuffled := Shuffle(rooms, perm);
    CarveCorridors(tiles, shuffled, stree, targets);
  }

  /** Floors row y from column lo up to, not including, column hi. */
  method FloorRow(tiles: array2<TileType>, y: nat, lo: nat, hi: nat)
    requires IsSquare(tiles) && y < GRID_SIZE && lo <= hi <= GRID_SIZE
    modifies tiles
    ensures forall i, j :: 0 <= i < GRID_SIZE && 0 <= j < GRID_SIZE ==>
      tiles[i, j] == if j == y && lo <= i < hi then Floor else old(tiles[i, j])
  {
    for x := lo to hi
      invariant forall i, j :: 0 <= i < GRID_SIZE && 0 <= j < GRID_SIZE ==>
        tiles[i, j] == if j == y && lo <= i < x then Floor else old(tiles[i, j])
    {
      tiles[x, y] := Floor;
    }
  }

  /** Floors column x from row lo up to, not including, row hi. */
  method FloorColumn(tiles: array2<TileType>, x: nat, lo: nat, hi: nat)
    requires IsSquare(tiles) && x < GRID_SIZE && lo <= hi <= GRID_SIZE
    modifies tiles
    ensures forall i, j :: 0 <= i < GRID_SIZE && 0 <= j < GRID_SIZE ==>
      tiles[i, j] == if i == x && lo <= j < hi then Floor else old(tiles[i, j])
  {
    for y := lo to hi
      invariant forall i, j :: 0 <= i < GRID_SIZE && 0 <= j < GRID_SIZE ==>
        tiles[i, j] == if i == x && lo <= j < y then Floor else old(tiles[i, j])
    {
      tiles[x, y] := Floor;
    }
  }

  /**
    One L-shaped corridor: sideways on the first point's row, the first point itself,
    then along the second point's column.
  */
  method CarveCorridor(tiles: array2<TileType>, room1Target: Coord, room2Target: Coord)
    requires IsSquare(tiles) && InBounds(room1Target) && InBounds(room2Target)
    modifies tiles
    ensures forall x, y :: 0 <= x < GRID_SIZE && 0 <= y < GRID_SIZE ==>
      tiles[x, y] == if OnCorridor(room1Target, room2Target, (x, y)) then Floor else old(tiles[x, y])
  {
    if room1Target.0 < room2Target.0 {
      FloorRow(tiles, room1Target.1, room1Target.0, room2Target.0);
    } else {
      FloorRow(tiles, room1Target.1, room2Target.0, room1Target.0);
    }
    tiles[room1Target.0, room1Target.1] := Floor;
    assert forall x, y :: 0 <= x < GRID_SIZE && 0 <= y < GRID_SIZE ==>
      tiles[x, y] == if (y == room1Target.1 && Min(room1Target.0, room2Target.0) <= x < Max(room1Target.0, room2Target.0))
        || (x, y) == room1Target then Floor else old(tiles[x, y]);
    if room1Target.1 < room2Target.1 {
      FloorColumn(tiles, room2Target.0, room1Target.1, room2Target.1);
    } else {
      FloorColumn(tiles, room2Target.0, room2Target.1, room1Target.1);
    }
  }

  /** One corridor per edge, between the two points drawn for it in its two rooms. */
  method CarveCorridors(tiles: array2<TileType>, rooms: seq<Room>, stree: seq<(nat, nat)>, targets: seq<(Coord, Coord)>)
    requires IsSquare(tiles) && TargetsInRooms(rooms, stree, targets)
    requires forall k :: 0 <= k < |rooms| ==> rooms[k].x + rooms[k].w <= GRID_SIZE && rooms[k].y + rooms[k].h <= GRID_SIZE
    modifies tiles
    ensures Cells(tiles) == CarveCorridorCells(old(Cells(tiles)), targets, |stree|)
  {
    ghost var before := Cells(tiles);
    for k := 0 to |stree|
      invariant forall x, y :: 0 <= x < GRID_SIZE && 0 <= y < GRID_SIZE ==>
        tiles[x, y] == if OnAnyCorridor(targets, k, (x, y)) then Floor else before[x][y]
    {
      var edge := stree[k];
      var room1Target, room2Target := targets[k].0, targets[k].1;
      assert InRoom(room1Target, rooms[edge.0]) && InRoom(room2Target, rooms[edge.1]);
      CarveCorridor(tiles, room1Target, room2Target);
      forall x, y | 0 <= x < GRID_SIZE && 0 <= y < GRID_SIZE
        ensures tiles[x, y] == if OnAnyCorridor(targets, k + 1, (x, y)) then Floor else before[x][y]
      {
        OnAnyCorridorStep(targets, k, (x, y));
      }
    }
    Extensionality(Cells(tiles), CarveCorridorCells(before, targets, |stree|));
  }

  // ---------------------------------------------------------------- flood fill support

  /** All cells of the map. */
  ghost function AllCells(): set<Coord>
  {
    set x: nat, y: nat | x < GRID_SIZE && y < GRID_SIZE :: (x, y)
  }

  /** The number of stack entries whose cell has already been visited. */
  ghost function CountSeen(q: seq<Coord>, seen: set<Coord>): nat
  {
    if q == [] then 0 else CountSeen(q[..|q| - 1], seen) + (if q[|q| - 1] in seen then 1 else 0)
  }

  /** Pushing unvisited cells does not change the count of visited entries. */
  lemma {:induction false} CountSeenUnseen(q: seq<Coord>, e: seq<Coord>, seen: set<Coord>)
    requires forall c :: c in e ==> c !in seen
    ensures CountSeen(q + e, seen) == CountSeen(q, seen)
    decreases |e|
  {
    if e != [] {
      var f := e[..|e| - 1];
      assert (q + e)[..|q + e| - 1] == q + f;
      CountSeenUnseen(q, f, seen);
    } else {
      assert q + e == q;
    }
  }

  /**
    What the fill knows between two pops: every cell on the stack or visited can be
    reached from `b`, `a` has not been visited, and every cell enterable from a
    visited cell is visited or still on the stack.
  */
  ghost predicate FillInvariant(m: Matrix, a: Coord, b: Coord, seen: set<Coord>, queue: seq<Coord>)
    requires IsGrid(m)
  {
    (forall c :: c in queue ==> (c == b || InBounds(c)) && Reachable(m, c, b)) &&
    (forall c :: c in seen ==> InBounds(c) && Reachable(m, c, b)) &&
    a !in seen && (b in seen || b in queue) &&
    forall c, n :: c in seen && Enterable(m, c, n) ==> n in seen || n in queue
  }

  /** Visiting the popped cell and pushing its unvisited enterable neighbours keeps the invariant. */
  lemma FillStep(m: Matrix, a: Coord, b: Coord, seen: set<Coord>, q0: seq<Coord>, pushed: seq<Coord>)
    requires IsGrid(m) && |q0| >= 1 && FillInvariant(m, a, b, seen, q0)
    requires q0[|q0| - 1] != a && InBounds(q0[|q0| - 1])
    requires forall c :: c in pushed ==> Enterable(m, q0[|q0| - 1], c) && c !in seen + {q0[|q0| - 1]}
    requires forall c :: Enterable(m, q0[|q0| - 1], c) && c !in seen + {q0[|q0| - 1]} ==> c in pushed
    ensures FillInvariant(m, a, b, seen + {q0[|q0| - 1]}, q0[..|q0| - 1] + pushed)
  {
    var current, rest := q0[|q0| - 1], q0[..|q0| - 1];
    var seen', q' := seen + {current}, rest + pushed;
    assert q0 == rest + [current];
    forall c | c in q'
      ensures (c == b || InBounds(c)) && Reachable(m, c, b)
    {
      if c in pushed {
        ReachableStep(m, current, b, c);
      } else {
        assert c in q0;
      }
    }
    forall c, n | c in seen' && Enterable(m, c, n)
      ensures n in seen' || n in q'
    {
      if c != current {
        assert n in seen || n in q0;
        if n in q0 && n != current {
          assert n in rest;
        }
      }
    }
    if b !in seen' {
      assert b in q0 && b != current;
      assert b in rest;
    }
  }

  /** Once the stack is empty the visited cells are closed, so `a` cannot be reached. */
  lemma FillExhausted(m: Matrix, a: Coord, b: Coord, seen: set<Coord>)
    requires IsGrid(m) && FillInvariant(m, a, b, seen, [])
    ensures !Reachable(m, a, b)
  {
    assert Closed(m, seen);
    ClosedContainsReachable(m, seen, a, b);
  }

  /**
    The fill's measure goes down on every pop: the number of unvisited cells when the
    popped cell was unvisited, else the number of stack entries already visited.
  */
  lemma FillMeasure(seen: set<Coord>, q0: seq<Coord>, pushed: seq<Coord>)
    requires |q0| >= 1 && InBounds(q0[|q0| - 1])
    requires forall c :: c in pushed ==> c !in seen + {q0[|q0| - 1]}
    ensures var current := q0[|q0| - 1];
      if current in seen then
        seen + {current} == seen &&
        CountSeen(q0[..|q0| - 1] + pushed, seen) < CountSeen(q0, seen)
      else
        AllCells() - (seen + {current}) < AllCells() - seen
  {
    var current, rest := q0[|q0| - 1], q0[..|q0| - 1];
    if current in seen {
      assert seen + {current} == seen;
      CountSeenUnseen(rest, pushed, seen);
    } else {
      assert current in AllCells();
    }
  }

  /**
    The inner loop of the fill for one neighbour column x = current.0 + xOffset: pushes,
    in offset order, every cell of it next to `current` that is in the map, not
    visited, and not Wall, Lava or Water.
  */
  method PushColumn(tiles: array2<TileType>, visited: array2<bool>, queue: seq<Coord>, current: Coord, xOffset: int)
    returns (next: seq<Coord>)
    requires IsSquare(tiles) && IsSquare(visited) && InBounds(current) && -1 <= xOffset <= 1
    ensures |queue| <= |next| && next == queue + next[|queue|..]
    ensures forall c :: c in next[|queue|..] ==>
      Enterable(Cells(tiles), current, c) && !visited[c.0, c.1] && c.0 == current.0 + xOffset
    ensures forall c: Coord :: Enterable(Cells(tiles), current, c) && !visited[c.0, c.1] && c.0 == current.0 + xOffset ==>
      c in next[|queue|..]
  {
    ghost var m := Cells(tiles);
    ghost var pushed: seq<Coord> := [];
    next := queue;
    for yOffset := -1 to 2
      invariant next == queue + pushed
      invariant forall c :: c in pushed ==> Enterable(m, current, c) && !visited[c.0, c.1] && c.0 == current.0 + xOffset
      invariant forall c: Coord ::
        (Enterable(m, current, c) && !visited[c.0, c.1] && c.0 == current.0 + xOffset && c.1 < current.1 + yOffset) ==>
        c in pushed
    {
      if xOffset == 0 && yOffset == 0 {
        continue;
      }
      var xPos, yPos := current.0 + xOffset, current.1 + yOffset;
      if xPos < 0 || xPos >= GRID_SIZE || yPos < 0 || yPos >= GRID_SIZE {
        continue;
      }
      if visited[xPos, yPos] {
        continue;
      }
      if tiles[xPos, yPos] == Wall || tiles[xPos, yPos] == Lava || tiles[xPos, yPos] == Water {
        continue;
      }
      var neighbour: Coord := (xPos, yPos);
      next := next + [neighbour];
      pushed := pushed + [neighbour];
    }
    assert next[|queue|..] == pushed;
  }

  /**
    The inner loops of the fill: pushes, in offset order, every neighbour of `current`
    that is in the map, not visited, and not Wall, Lava or Water.
  */
  method PushNeighbours(tiles: array2<TileType>, visited: array2<bool>, queue: seq<Coord>, current: Coord,
                        ghost seen: set<Coord>)
    returns (next: seq<Coord>)
    requires IsSquare(tiles) && IsSquare(visited) && InBounds(current)
    requires forall c: Coord :: InBounds(c) ==> (visited[c.0, c.1] <==> c in seen)
    ensures |queue| <= |next| && next == queue + next[|queue|..]
    ensures forall c :: c in next[|queue|..] ==> Enterable(Cells(tiles), current, c) && c !in seen
    ensures forall c: Coord :: Enterable(Cells(tiles), current, c) && c !in seen ==> c in next[|queue|..]
  {
    ghost var m := Cells(tiles);
    ghost var pushed: seq<Coord> := [];
    next := queue;
    for xOffset := -1 to 2
      invariant next == queue + pushed
      invariant forall c :: c in pushed ==> Enterable(m, current, c) && !visited[c.0, c.1]
      invariant forall c: Coord :: Enterable(m, current, c) && !visited[c.0, c.1] && c.0 < current.0 + xOffset ==>
        c in pushed
    {
      ghost var before := next;
      next := PushColumn(tiles, visited, next, current, xOffset);
      ghost var column := next[|before|..];
      assert next == queue + (pushed + column);
      pushed := pushed + column;
    }
    assert next[|queue|..] == pushed;
  }

  // ---------------------------------------------------------------- the map

  class Grid {
    const tiles: array2<TileType>

    ghost predicate Valid()
    {
      IsSquare(tiles)
    }

    /** An all-Floor map. */
    constructor NewFloorGrid()
      ensures Valid() && fresh(tiles)
      ensures Cells(tiles) == Uniform(Floor)
    {
      tiles := new TileType[GRID_SIZE, GRID_SIZE]((_, _) => Floor);
      new;
      Extensionality(Cells(tiles), Uniform(Floor));
    }

    /** The text parser, for a text whose written characters all land inside the map. */
    constructor LoadFromString(input: string)
      requires Fits(input)
      ensures Valid() && fresh(tiles)
      ensures Cells(tiles) == Parse(input)
    {
      var t := new TileType[GRID_SIZE, GRID_SIZE]((_, _) => Floor);
      Extensionality(Cells(t), Parse([]));
      var x: nat, y: nat := 0, 0;
      for i := 0 to |input|
        invariant Fits(input[..i]) && Column(input[..i]) == x && Line(input[..i]) == y
        invariant Cells(t) == Parse(input[..i])
      {
        var c := input[i];
        ParseStep(input, i);
        if c == '\n' {
          x := 0;
          y := y + 1;
        } else {
          WriteChar(t, x, y, c);
          x := x + 1;
        }
      }
      assert input[..|input|] == input;
      tiles := t;
    }

    /** The cave generator for a seed matrix and a number of smoothing passes. */
    constructor NewCellAutomataGrid(seed: seq<seq<bool>>, iterations: nat)
      requires IsSeed(seed)
      ensures Valid() && fresh(tiles)
      ensures Cells(tiles) == CaveGrid(seed, iterations)
    {
      var t := new TileType[GRID_SIZE, GRID_SIZE]((_, _) => Floor);
      for x := 0 to GRID_SIZE
        invariant forall i, j :: 0 <= i < GRID_SIZE && 0 <= j < GRID_SIZE ==>
          t[i, j] == if i < x && seed[i][j] then Wall else Floor
      {
        for y := 0 to GRID_SIZE
          invariant forall i, j :: 0 <= i < GRID_SIZE && 0 <= j < GRID_SIZE ==>
            t[i, j] == if (i < x || (i == x && j < y)) && seed[i][j] then Wall else Floor
        {
          if seed[x][y] {
            t[x, y] := Wall;
          }
        }
      }
      Extensionality(Cells(t), Seeded(seed));
      for i := 0 to iterations
        invariant fresh(t) && IsSquare(t)
        invariant Cells(t) == Smooth(Seeded(seed), i)
      {
        var newTiles := SmoothPass(t);
        t := newTiles;
      }
      tiles := t;
    }

    /**
      The room generator: rooms placed from `cands`, carved, shuffled by `perm`, chained,
      and joined by corridors between the points in `targets`.
    */
    constructor NewRoomBasedGrid(roomCount: nat, minSize: Size, maxSize: Size,
                                 cands: seq<Room>, perm: seq<nat>, targets: seq<(Coord, Coord)>)
      requires SamplesValid(roomCount, minSize, maxSize, cands, perm, targets)
      ensures Valid() && fresh(tiles)
      ensures Cells(tiles) == RoomBasedGrid(roomCount, cands, targets)
      ensures forall c, d :: InAnyRoom(PlanRooms(cands, roomCount), c) && InAnyRoom(PlanRooms(cands, roomCount), d) ==>
        Reachable(Cells(tiles), d, c)
    {
      var rooms, attempts := PlaceRooms(roomCount, minSize, maxSize, cands);
      var t := new TileType[GRID_SIZE, GRID_SIZE]((_, _) => Wall);
      Extensionality(Cells(t), Uniform(Wall));
      CarveRooms(t, rooms);
      ConnectRooms(t, rooms, perm, targets);
      RoomGridIsCarved(rooms, targets, |Chain(|rooms|)|);
      RoomMapConnected(roomCount, minSize, maxSize, cands, perm, targets);
      tiles := t;
    }

    /** One printed row: the glyph of every cell of row y, then a newline. */
    method PrintRow(y: nat) returns (row: string)
      requires Valid() && y < GRID_SIZE
      ensures |row| == LINE_LENGTH && row[GRID_SIZE] == '\n'
      ensures forall x :: 0 <= x < GRID_SIZE ==> row[x] == Glyph(Cells(tiles)[x][y])
    {
      row := [];
      for x := 0 to GRID_SIZE
        invariant |row| == x
        invariant forall i :: 0 <= i < x ==> row[i] == Glyph(tiles[i, y])
      {
        var glyph: char;
        match tiles[x, y] {
          case Wall => glyph := '#';
          case Floor => glyph := '.';
          case DownStairs => glyph := '>';
          case UpStairs => glyph := '<';
          case Fountain => glyph := 'F';
          case Water => glyph := ' ';
          case Lava => glyph := 'L';
        }
        row := row + [glyph];
      }
      row := row + ['\n'];
    }

    /** The text the printer writes: one character per cell, row by row, a newline after each row. */
    method PrettyPrint() returns (s: string)
      requires Valid()
      ensures s == Print(Cells(tiles))
    {
      ghost var m := Cells(tiles);
      s := [];
      for y := 0 to GRID_SIZE
        invariant |s| == y * LINE_LENGTH
        invariant forall k :: 0 <= k < |s| ==> s[k] == Print(m)[k]
      {
        var row := PrintRow(y);
        PrintAppendRow(m, s, row, y);
        s := s + row;
      }
      assert |s| == |Print(m)|;
    }

    /**
      The depth-first flood fill from `b`: true exactly when `a` is `b` or can be
      reached from it. Only `b` itself may lie outside the map, and then only as `a`.
    */
    method IsReachable(a: Coord, b: Coord) returns (r: bool)
      requires Valid() && (a == b || InBounds(b))
      ensures r <==> Reachable(Cells(tiles), a, b)
    {
      ghost var m := Cells(tiles);
      var visited := new bool[GRID_SIZE, GRID_SIZE]((_, _) => false);
      ghost var seen: set<Coord> := {};
      var queue := [b];
      while |queue| > 0
        invariant fresh(visited) && IsSquare(visited) && Cells(tiles) == m
        invariant seen <= AllCells()
        invariant forall c: Coord :: InBounds(c) ==> (visited[c.0, c.1] <==> c in seen)
        invariant FillInvariant(m, a, b, seen, queue)
        decreases AllCells() - seen, CountSeen(queue, seen)
      {
        ghost var q0 := queue;
        var current := queue[|queue| - 1];
        queue := queue[..|queue| - 1];
        assert current in q0;
        if current == a {
          return true;
        }
        ghost var seen0 := seen;
        visited[current.0, current.1] := true;
        seen := seen + {current};
        ghost var q1 := queue;
        queue := PushNeighbours(tiles, visited, queue, current, seen);
        ghost var pushed := queue[|q1|..];
        FillStep(m, a, b, seen0, q0, pushed);
        FillMeasure(seen0, q0, pushed);
      }
      FillExhausted(m, a, b, seen);
      return false;
    }

    /** The up-stair loop: samples are drawn until one lands on Floor. */
    method ChooseUp(ups: seq<Coord>) returns (upstairsCoords: Coord)
      requires Valid() && AllInBounds(ups)
      requires exists k :: 0 <= k < |ups| && At(Cells(tiles), ups[k]) == Floor
      ensures upstairsCoords == ups[FloorFrom(Cells(tiles), ups, 0)]
    {
      ghost var upIndex := FloorFrom(Cells(tiles), ups, 0);
      var i := 0;
      upstairsCoords := ups[0];
      while tiles[upstairsCoords.0, upstairsCoords.1] != Floor
        invariant i <= upIndex && upstairsCoords == ups[i]
        decreases upIndex - i
      {
        i := i + 1;
        upstairsCoords := ups[i];
      }
    }

    /** The down-stair loop's exit test as written: the sample is the up stair, or the up stair can be reached from it. */
    method DownAccepted(upstairsCoords: Coord, downstairsCoords: Coord) returns (accepted: bool)
      requires Valid() && InBounds(downstairsCoords)
      ensures accepted <==> Accepts(Cells(tiles), upstairsCoords, downstairsCoords)
    {
      accepted := downstairsCoords == upstairsCoords;
      if !accepted {
        accepted := IsReachable(upstairsCoords, downstairsCoords);
      }
    }

    /**
      The down-stair loop as written: samples are drawn until one equals the up stair
      or the up stair can be reached from it.
    */
    method ChooseDown(upstairsCoords: Coord, downs: seq<Coord>) returns (downstairsCoords: Coord)
      requires Valid() && AllInBounds(downs)
      requires exists k :: 0 <= k < |downs| && Accepts(Cells(tiles), upstairsCoords, downs[k])
      ensures downstairsCoords == downs[AcceptedFrom(Cells(tiles), upstairsCoords, downs, 0)]
    {
      ghost var downIndex := AcceptedFrom(Cells(tiles), upstairsCoords, downs, 0);
      var j := 0;
      downstairsCoords := downs[0];
      var accepted := DownAccepted(upstairsCoords, downstairsCoords);
      while !accepted
        invariant j <= downIndex && downstairsCoords == downs[j]
        invariant accepted <==> Accepts(Cells(tiles), upstairsCoords, downstairsCoords)
        decreases downIndex - j
      {
        assert j < downIndex;
        j := j + 1;
        downstairsCoords := downs[j];
        accepted := DownAccepted(upstairsCoords, downstairsCoords);
      }
    }

    /** The corrected exit test: a cell other than the up stair from which the up stair can be reached. */
    method DistinctDownAccepted(upstairsCoords: Coord, downstairsCoords: Coord) returns (accepted: bool)
      requires Valid() && InBounds(downstairsCoords)
      ensures accepted <==> AcceptsDistinct(Cells(tiles), upstairsCoords, downstairsCoords)
    {
      accepted := downstairsCoords != upstairsCoords;
      if accepted {
        accepted := IsReachable(upstairsCoords, downstairsCoords);
      }
    }

    /**
      The down-stair loop with a distinct-cell test: samples are drawn until one
      differs from the up stair and the up stair can be reached from it.
    */
    method ChooseDistinctDown(upstairsCoords: Coord, downs: seq<Coord>) returns (downstairsCoords: Coord)
      requires Valid() && AllInBounds(downs)
      requires exists k :: 0 <= k < |downs| && AcceptsDistinct(Cells(tiles), upstairsCoords, downs[k])
      ensures downstairsCoords == downs[DistinctFrom(Cells(tiles), upstairsCoords, downs, 0)]
    {
      ghost var downIndex := DistinctFrom(Cells(tiles), upstairsCoords, downs, 0);
      var j := 0;
      downstairsCoords := downs[0];
      var accepted := DistinctDownAccepted(upstairsCoords, downstairsCoords);
      while !accepted
        invariant j <= downIndex && downstairsCoords == downs[j]
        invariant accepted <==> AcceptsDistinct(Cells(tiles), upstairsCoords, downstairsCoords)
        decreases downIndex - j
      {
        assert j < downIndex;
        j := j + 1;
        downstairsCoords := downs[j];
        accepted := DistinctDownAccepted(upstairsCoords, downstairsCoords);
      }
    }

    /**
      Stair placement as written: UpStairs on the chosen up cell, then DownStairs on
      the chosen down cell; nothing else changes.
    */
    method PlaceStairs(ups: seq<Coord>, downs: seq<Coord>)
      requires Valid() && AllInBounds(ups) && AllInBounds(downs)
      requires exists k :: 0 <= k < |ups| && At(Cells(tiles), ups[k]) == Floor
      requires exists k :: 0 <= k < |downs| && Accepts(Cells(tiles), ups[FloorFrom(Cells(tiles), ups, 0)], downs[k])
      modifies tiles
      ensures var m := old(Cells(tiles));
        var up := ups[FloorFrom(m, ups, 0)];
        Cells(tiles) == Placed(m, up, downs[AcceptedFrom(m, up, downs, 0)])
    {
      var upstairsCoords := ChooseUp(ups);
      var downstairsCoords := ChooseDown(upstairsCoords, downs);
      SetTile(tiles, upstairsCoords, UpStairs);
      SetTile(tiles, downstairsCoords, DownStairs);
    }

    /** Stair placement with the distinct-cell test for the down stair. */
    method PlaceStairsDistinct(ups: seq<Coord>, downs: seq<Coord>)
      requires Valid() && AllInBounds(ups) && AllInBounds(downs)
      requires exists k :: 0 <= k < |ups| && At(Cells(tiles), ups[k]) == Floor
      requires exists k :: 0 <= k < |downs| && AcceptsDistinct(Cells(tiles), ups[FloorFrom(Cells(tiles), ups, 0)], downs[k])
      modifies tiles
      ensures var m := old(Cells(tiles));
        var up := ups[FloorFrom(m, ups, 0)];
        Cells(tiles) == Placed(m, up, downs[DistinctFrom(m, up, downs, 0)])
      ensures var m := old(Cells(tiles));
        var up := ups[FloorFrom(m, ups, 0)];
        var down := downs[DistinctFrom(m, up, downs, 0)];
        Reachable(Cells(tiles), up, down) &&
        (WallFloorOnly(m) ==> forall c :: InBounds(c) ==>
          (At(Cells(tiles), c) == UpStairs <==> c == up) && (At(Cells(tiles), c) == DownStairs <==> c == down))
    {
      ghost var m := Cells(tiles);
      var upstairsCoords := ChooseUp(ups);
      var downstairsCoords := ChooseDistinctDown(upstairsCoords, downs);
      SetTile(tiles, upstairsCoords, UpStairs);
      SetTile(tiles, downstairsCoords, DownStairs);
      StairsStayConnected(m, upstairsCoords, downstairsCoords);
      if WallFloorOnly(m) {
        StairsPlacedOnce(m, upstairsCoords, downstairsCoords);
      }
    }
  }

  /** The parser's match on a character: the seven tile characters write their tile at (x, y), any other writes nothing. */
  method WriteChar(tiles: array2<TileType>, x: nat, y: nat, c: char)
    requires IsSquare(tiles) && (CharTile(c).Some? ==> InBounds((x, y)))
    modifies tiles
    ensures Cells(tiles) ==
      if CharTile(c).None? then old(Cells(tiles)) else Write(old(Cells(tiles)), (x, y), CharTile(c).value)
  {
    ghost var before := Cells(tiles);
    match c {
      case '#' => tiles[x, y] := Wall;
      case '.' => tiles[x, y] := Floor;
      case '>' => tiles[x, y] := DownStairs;
      case '<' => tiles[x, y] := UpStairs;
      case 'F' => tiles[x, y] := Fountain;
      case ' ' => tiles[x, y] := Water;
      case 'L' => tiles[x, y] := Lava;
      case _ =>
    }
    if CharTile(c).Some? {
      Extensionality(Cells(tiles), Write(before, (x, y), CharTile(c).value));
    }
  }

  /** One tile written in place. */
  method SetTile(tiles: array2<TileType>, c: Coord, t: TileType)
    requires IsSquare(tiles) && InBounds(c)
    modifies tiles
    ensures Cells(tiles) == Write(old(Cells(tiles)), c, t)
  {
    ghost var before := Cells(tiles);
    tiles[c.0, c.1] := t;
    Extensionality(Cells(tiles), Write(before, c, t));
  }
}
