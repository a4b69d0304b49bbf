/**
  The cellular-automaton cave generator (src/grid.rs, new_cell_automata_grid):
  a random Wall/Floor seeding followed by passes of the 4-5 rule, each pass
  computed from a snapshot of the previous one.
*/
module Cave {
  import opened Tiles
  import opened Board

  /** A seed matrix: seed[x][y] is true when cell (x, y) drew a number below the density. */
  predicate IsSeed(seed: seq<seq<bool>>)
  {
    |seed| == GRID_SIZE && forall x :: 0 <= x < |seed| ==> |seed[x]| == GRID_SIZE
  }

  /** The map after seeding: Wall where the seed says so, Floor elsewhere. */
  function Seeded(seed: seq<seq<bool>>): (m: Matrix)
    requires IsSeed(seed)
    ensures IsGrid(m) && WallFloorOnly(m)
    ensures forall x, y :: 0 <= x < GRID_SIZE && 0 <= y < GRID_SIZE ==> (m[x][y] == Wall <==> seed[x][y])
  {
    seq(GRID_SIZE, x requires 0 <= x < GRID_SIZE =>
      seq(GRID_SIZE, y requires 0 <= y < GRID_SIZE => if seed[x][y] then Wall else Floor))
  }

  /**
    1 when the neighbour at offset (dx, dy) of (x, y) is a Wall inside the map;
    0 for the centre itself and for positions outside the map.
  */
  function Contribution(m: Matrix, x: nat, y: nat, dx: int, dy: int): (n: nat)
    requires IsGrid(m)
    ensures n <= 1
  {
    if dx == 0 && dy == 0 then 0
    else if x + dx < 0 || x + dx >= GRID_SIZE || y + dy < 0 || y + dy >= GRID_SIZE then 0
    else if m[x + dx][y + dy] == Wall then 1
    else 0
  }

  /** Walls among the first k of the offsets dy = -1, 0, 1 in the neighbour column x + dx. */
  function ColumnCount(m: Matrix, x: nat, y: nat, dx: int, k: nat): (n: nat)
    requires IsGrid(m) && k <= 3
    ensures n <= k
  {
    if k == 0 then 0 else ColumnCount(m, x, y, dx, k - 1) + Contribution(m, x, y, dx, k - 2)
  }

  /** Walls among the first k neighbour columns dx = -1, 0, 1. */
  function BlockCount(m: Matrix, x: nat, y: nat, k: nat): (n: nat)
    requires IsGrid(m) && k <= 3
  {
    if k == 0 then 0 else BlockCount(m, x, y, k - 1) + ColumnCount(m, x, y, k - 2, 3)
  }

  /** The number of Wall cells among the in-bounds 8-neighbours of (x, y). */
  function WallCount(m: Matrix, x: nat, y: nat): nat
    requires IsGrid(m)
  {
    BlockCount(m, x, y, 3)
  }

  /** A neighbour column's count is the sum of its three offsets. */
  lemma ColumnCountSum(m: Matrix, x: nat, y: nat, dx: int)
    requires IsGrid(m)
    ensures ColumnCount(m, x, y, dx, 3) ==
      Contribution(m, x, y, dx, -1) + Contribution(m, x, y, dx, 0) + Contribution(m, x, y, dx, 1)
  {
    assert ColumnCount(m, x, y, dx, 1) == Contribution(m, x, y, dx, -1);
    assert ColumnCount(m, x, y, dx, 2) == ColumnCount(m, x, y, dx, 1) + Contribution(m, x, y, dx, 0);
  }

  /** The wall count is the sum of the three neighbour columns. */
  lemma WallCountSum(m: Matrix, x: nat, y: nat)
    requires IsGrid(m)
    ensures WallCount(m, x, y) ==
      ColumnCount(m, x, y, -1, 3) + ColumnCount(m, x, y, 0, 3) + ColumnCount(m, x, y, 1, 3)
  {
    assert BlockCount(m, x, y, 1) == ColumnCount(m, x, y, -1, 3);
    assert BlockCount(m, x, y, 2) == BlockCount(m, x, y, 1) + ColumnCount(m, x, y, 0, 3);
  }

  /** The count never exceeds the eight neighbours: the centre is excluded. */
  lemma WallCountBound(m: Matrix, x: nat, y: nat)
    requires IsGrid(m)
    ensures WallCount(m, x, y) <= 8
  {
    WallCountSum(m, x, y);
    ColumnCountSum(m, x, y, 0);
  }

  /** At the corner only the three in-bounds neighbours can count. */
  lemma WallCountCorner(m: Matrix)
    requires IsGrid(m)
    ensures WallCount(m, 0, 0) <= 3
  {
    WallCountSum(m, 0, 0);
    ColumnCountSum(m, 0, 0, -1);
    ColumnCountSum(m, 0, 0, 0);
    ColumnCountSum(m, 0, 0, 1);
  }

  /** An interior cell surrounded by walls counts all eight of them. */
  lemma WallCountSurrounded(m: Matrix, x: nat, y: nat)
    requires IsGrid(m) && 1 <= x < GRID_SIZE - 1 && 1 <= y < GRID_SIZE - 1
    requires forall i, j :: x - 1 <= i <= x + 1 && y - 1 <= j <= y + 1 && (i, j) != (x, y) ==> m[i][j] == Wall
    ensures WallCount(m, x, y) == 8
  {
    WallCountSum(m, x, y);
    ColumnCountSum(m, x, y, -1);
    ColumnCountSum(m, x, y, 0);
    ColumnCountSum(m, x, y, 1);
    assert m[x - 1][y - 1] == Wall && m[x - 1][y] == Wall && m[x - 1][y + 1] == Wall;
    assert m[x][y - 1] == Wall && m[x][y + 1] == Wall;
    assert m[x + 1][y - 1] == Wall && m[x + 1][y] == Wall && m[x + 1][y + 1] == Wall;
  }

  /**
    The 4-5 rule: a Wall stays a Wall with at least 4 walls around it, any other tile
    becomes a Wall with at least 5. Equivalently, the 3x3 block centred on the cell
    holds at least 5 walls.
  */
  function NextTile(current: TileType, walls: nat): (t: TileType)
    ensures t == Wall || t == Floor
    ensures t == Wall <==> walls + (if current == Wall then 1 else 0) >= 5
  {
    if current == Wall then
      if walls >= 4 then Wall else Floor
    else
      if walls >= 5 then Wall else Floor
  }

  /** One smoothing pass: every cell recomputed from the previous map. */
  function Step(m: Matrix): (r: Matrix)
    requires IsGrid(m)
    ensures IsGrid(r) && WallFloorOnly(r)
  {
    seq(GRID_SIZE, x requires 0 <= x < GRID_SIZE =>
      seq(GRID_SIZE, y requires 0 <= y < GRID_SIZE => NextTile(m[x][y], WallCount(m, x, y))))
  }

  /** `n` smoothing passes applied to `m`. */
  function Smooth(m: Matrix, n: nat): (r: Matrix)
    requires IsGrid(m)
    ensures IsGrid(r)
  {
    if n == 0 then m else Step(Smooth(m, n - 1))
  }

  /** The cave generator's result for a seed and a number of passes. */
  function CaveGrid(seed: seq<seq<bool>>, iterations: nat): (m: Matrix)
    requires IsSeed(seed)
    ensures IsGrid(m)
  {
    Smooth(Seeded(seed), iterations)
  }

  /** The cave generator only ever produces Wall and Floor. */
  lemma {:induction false} CaveWallFloorOnly(seed: seq<seq<bool>>, iterations: nat)
    requires IsSeed(seed)
    ensures WallFloorOnly(CaveGrid(seed, iterations))
  {
    if iterations > 0 {
      assert CaveGrid(seed, iterations) == Step(CaveGrid(seed, iterations - 1));
    }
  }

  /** With no passes the generator returns the seeded map unchanged. */
  lemma CaveNoPasses(seed: seq<seq<bool>>)
    requires IsSeed(seed)
    ensures CaveGrid(seed, 0) == Seeded(seed)
  {
  }
}
