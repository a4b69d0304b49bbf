/** The fixed-size tile matrix shared by every part of the map generator (src/grid.rs). */
module Board {
  import opened Tiles

  /** Side length of every map. */
  const GRID_SIZE: nat := 64

  /** A cell position (column, row); the source indexes its matrix as tiles[x][y]. */
  type Coord = (nat, nat)

  /** The value view of a map: m[x][y] is the tile in column x, row y. */
  type Matrix = seq<seq<TileType>>

  predicate IsGrid(m: Matrix)
  {
    |m| == GRID_SIZE && forall x :: 0 <= x < |m| ==> |m[x]| == GRID_SIZE
  }

  predicate InBounds(c: Coord)
  {
    c.0 < GRID_SIZE && c.1 < GRID_SIZE
  }

  function At(m: Matrix, c: Coord): TileType
    requires IsGrid(m) && InBounds(c)
  {
    m[c.0][c.1]
  }

  /** A map whose every cell holds `t`. */
  function Uniform(t: TileType): (m: Matrix)
    ensures IsGrid(m)
    ensures forall x, y :: 0 <= x < GRID_SIZE && 0 <= y < GRID_SIZE ==> m[x][y] == t
  {
    seq(GRID_SIZE, _ => seq(GRID_SIZE, _ => t))
  }

  /** `m` with the single cell `c` replaced by `t`. */
  function Write(m: Matrix, c: Coord, t: TileType): (r: Matrix)
    requires IsGrid(m) && InBounds(c)
    ensures IsGrid(r)
    ensures r[c.0][c.1] == t
    ensures forall x, y :: 0 <= x < GRID_SIZE && 0 <= y < GRID_SIZE && (x, y) != c ==> r[x][y] == m[x][y]
  {
    m[c.0 := m[c.0][c.1 := t]]
  }

  /** Every cell is Wall or Floor, the invariant both generators promise. */
  predicate WallFloorOnly(m: Matrix)
    requires IsGrid(m)
  {
    forall x, y :: 0 <= x < GRID_SIZE && 0 <= y < GRID_SIZE ==> m[x][y] == Wall || m[x][y] == Floor
  }

  predicate IsSquare<T>(a: array2<T>)
  {
    a.Length0 == GRID_SIZE && a.Length1 == GRID_SIZE
  }

  /** The current contents of a tile array as a value. */
  ghost function Cells(a: array2<TileType>): (m: Matrix)
    requires IsSquare(a)
    reads a
    ensures IsGrid(m)
    ensures forall x, y :: 0 <= x < GRID_SIZE && 0 <= y < GRID_SIZE ==> m[x][y] == a[x, y]
  {
    seq(GRID_SIZE, x requires 0 <= x < GRID_SIZE reads a =>
      seq(GRID_SIZE, y requires 0 <= y < GRID_SIZE reads a => a[x, y]))
  }

  /** Two maps that agree on every cell are equal. */
  lemma Extensionality(m: Matrix, n: Matrix)
    requires IsGrid(m) && IsGrid(n)
    requires forall x, y :: 0 <= x < GRID_SIZE && 0 <= y < GRID_SIZE ==> m[x][y] == n[x][y]
    ensures m == n
  {
    forall x | 0 <= x < GRID_SIZE
      ensures m[x] == n[x]
    {
      assert forall y :: 0 <= y < GRID_SIZE ==> m[x][y] == n[x][y];
    }
  }
}
