/**
  The connectivity notion of the stair check (src/grid.rs, is_a_reachable_from_b):
  walks over 8-adjacent in-bounds cells that avoid Wall, Lava and Water. The cell a
  walk starts from is never tested against the blocking tiles.
*/
module Reach {
  import opened Tiles
  import opened Board

  /**
    The tiles the flood fill does not enter. Every tile it does enter is walkable;
    Lava is the one walkable tile it refuses.
  */
  function BlocksFill(t: TileType): (r: bool)
    ensures !r ==> IsWalkable(t)
    ensures (r && IsWalkable(t)) <==> t == Lava
  {
    t == Wall || t == Lava || t == Water
  }

  /** Two distinct cells that touch at a side or a corner. */
  predicate Adjacent(c: Coord, d: Coord)
  {
    c != d && -1 <= c.0 - d.0 <= 1 && -1 <= c.1 - d.1 <= 1
  }

  /**
    A walk the fill can take: it starts in the map, and every later cell is in the
    map, touches the one before it and does not block the fill.
  */
  ghost predicate IsWalk(m: Matrix, p: seq<Coord>)
    requires IsGrid(m)
  {
    |p| >= 1 && InBounds(p[0]) &&
    forall i :: 1 <= i < |p| ==> InBounds(p[i]) && Adjacent(p[i - 1], p[i]) && !BlocksFill(At(m, p[i]))
  }

  /** `a` can be reached from `b`: they are equal, or a walk leads from `b` to `a`. */
  ghost predicate Reachable(m: Matrix, a: Coord, b: Coord)
    requires IsGrid(m)
  {
    a == b || exists p :: |p| >= 1 && IsWalk(m, p) && p[0] == b && p[|p| - 1] == a
  }

  /** A reachable cell's unblocked neighbour is reachable too. */
  lemma ReachableStep(m: Matrix, a: Coord, b: Coord, n: Coord)
    requires IsGrid(m) && InBounds(a) && Reachable(m, a, b)
    requires InBounds(n) && Adjacent(a, n) && !BlocksFill(At(m, n))
    ensures Reachable(m, n, b)
  {
    var p: seq<Coord>;
    if a == b {
      p := [b];
    } else {
      p :| |p| >= 1 && IsWalk(m, p) && p[0] == b && p[|p| - 1] == a;
    }
    var q := p + [n];
    assert IsWalk(m, q) && q[0] == b && q[|q| - 1] == n;
  }

  /** Any other cell that can be reached is in the map and does not block the fill. */
  lemma ReachableTarget(m: Matrix, a: Coord, b: Coord)
    requires IsGrid(m) && Reachable(m, a, b) && a != b
    ensures InBounds(a) && !BlocksFill(At(m, a))
  {
    var p :| |p| >= 1 && IsWalk(m, p) && p[0] == b && p[|p| - 1] == a;
    assert |p| > 1;
  }

  /** The start of a walk is never tested: an unblocked neighbour of any cell, even a Wall, is reachable from it. */
  lemma StartCellUnchecked(m: Matrix, a: Coord, b: Coord)
    requires IsGrid(m) && InBounds(a) && InBounds(b) && Adjacent(b, a) && !BlocksFill(At(m, a))
    ensures Reachable(m, a, b)
  {
    var p := [b, a];
    assert IsWalk(m, p);
  }

  /** `n` is a cell the fill may enter from `c`: an in-map, unblocked neighbour. */
  predicate Enterable(m: Matrix, c: Coord, n: Coord)
    requires IsGrid(m)
  {
    InBounds(n) && Adjacent(c, n) && !BlocksFill(At(m, n))
  }

  /** A set of in-map cells that contains every cell the fill may enter from its members. */
  ghost predicate Closed(m: Matrix, s: set<Coord>)
    requires IsGrid(m)
  {
    (forall c :: c in s ==> InBounds(c)) &&
    forall c, n :: c in s && Enterable(m, c, n) ==> n in s
  }

  /** A closed set around the start contains everything reachable from it. */
  lemma ClosedContainsReachable(m: Matrix, s: set<Coord>, a: Coord, b: Coord)
    requires IsGrid(m) && Closed(m, s) && b in s
    ensures Reachable(m, a, b) ==> a in s
  {
    if a != b && Reachable(m, a, b) {
      var p :| |p| >= 1 && IsWalk(m, p) && p[0] == b && p[|p| - 1] == a;
      var i := 0;
      while i < |p| - 1
        invariant 0 <= i < |p| && p[i] in s
      {
        assert Enterable(m, p[i], p[i + 1]);
        i := i + 1;
      }
    }
  }

  /** Walks compose: `b` reached from `c`, then `a` reached from `b`. */
  lemma ReachableTrans(m: Matrix, a: Coord, b: Coord, c: Coord)
    requires IsGrid(m) && Reachable(m, b, c) && Reachable(m, a, b)
    ensures Reachable(m, a, c)
  {
    if a != b && b != c {
      var p :| |p| >= 1 && IsWalk(m, p) && p[0] == c && p[|p| - 1] == b;
      var q :| |q| >= 1 && IsWalk(m, q) && q[0] == b && q[|q| - 1] == a;
      var r := p + q[1..];
      forall i | 1 <= i < |r|
        ensures InBounds(r[i]) && Adjacent(r[i - 1], r[i]) && !BlocksFill(At(m, r[i]))
      {
        if i >= |p| {
          assert r[i] == q[i - |p| + 1] && r[i - 1] == q[i - |p|];
        }
      }
      assert IsWalk(m, r) && r[0] == c && r[|r| - 1] == a;
    }
  }

  /** A walk can be walked back when its start lets the fill in too. */
  lemma ReachableSym(m: Matrix, a: Coord, b: Coord)
    requires IsGrid(m) && Reachable(m, a, b) && InBounds(b) && !BlocksFill(At(m, b))
    ensures Reachable(m, b, a)
  {
    if a != b {
      var p :| |p| >= 1 && IsWalk(m, p) && p[0] == b && p[|p| - 1] == a;
      var q := seq(|p|, i requires 0 <= i < |p| => p[|p| - 1 - i]);
      forall i | 1 <= i < |q|
        ensures InBounds(q[i]) && Adjacent(q[i - 1], q[i]) && !BlocksFill(At(m, q[i]))
      {
        var j := |p| - 1 - i;
        assert q[i] == p[j] && q[i - 1] == p[j + 1];
        assert Adjacent(p[j], p[j + 1]);
      }
      assert IsWalk(m, q) && q[0] == a && q[|q| - 1] == b;
    }
  }

  /** Along row y to the right, from (lo, y) to (hi, y), over cells that let the fill in. */
  lemma {:induction false} ReachRowRight(m: Matrix, b: Coord, y: nat, lo: nat, hi: nat)
    requires IsGrid(m) && lo <= hi < GRID_SIZE && y < GRID_SIZE && Reachable(m, (lo, y), b)
    requires forall x :: lo < x <= hi ==> !BlocksFill(m[x][y])
    ensures Reachable(m, (hi, y), b)
    decreases hi - lo
  {
    if lo < hi {
      ReachRowRight(m, b, y, lo, hi - 1);
      ReachableStep(m, (hi - 1, y), b, (hi, y));
    }
  }

  /** Along row y to the left, from (hi, y) to (lo, y). */
  lemma {:induction false} ReachRowLeft(m: Matrix, b: Coord, y: nat, lo: nat, hi: nat)
    requires IsGrid(m) && lo <= hi < GRID_SIZE && y < GRID_SIZE && Reachable(m, (hi, y), b)
    requires forall x :: lo <= x < hi ==> !BlocksFill(m[x][y])
    ensures Reachable(m, (lo, y), b)
    decreases hi - lo
  {
    if lo < hi {
      ReachRowLeft(m, b, y, lo + 1, hi);
      ReachableStep(m, (lo + 1, y), b, (lo, y));
    }
  }

  /** Along column x upwards in y, from (x, lo) to (x, hi). */
  lemma {:induction false} ReachColumnUp(m: Matrix, b: Coord, x: nat, lo: nat, hi: nat)
    requires IsGrid(m) && lo <= hi < GRID_SIZE && x < GRID_SIZE && Reachable(m, (x, lo), b)
    requires forall y :: lo < y <= hi ==> !BlocksFill(m[x][y])
    ensures Reachable(m, (x, hi), b)
    decreases hi - lo
  {
    if lo < hi {
      ReachColumnUp(m, b, x, lo, hi - 1);
      ReachableStep(m, (x, hi - 1), b, (x, hi));
    }
  }

  /** Along column x downwards in y, from (x, hi) to (x, lo). */
  lemma {:induction false} ReachColumnDown(m: Matrix, b: Coord, x: nat, lo: nat, hi: nat)
    requires IsGrid(m) && lo <= hi < GRID_SIZE && x < GRID_SIZE && Reachable(m, (x, hi), b)
    requires forall y :: lo <= y < hi ==> !BlocksFill(m[x][y])
    ensures Reachable(m, (x, lo), b)
    decreases hi - lo
  {
    if lo < hi {
      ReachColumnDown(m, b, x, lo + 1, hi);
      ReachableStep(m, (x, lo + 1), b, (x, lo));
    }
  }
}
