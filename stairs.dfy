/**
  Stair placement (src/grid.rs, place_stairs): the up stair goes on the first sampled
  position that holds Floor, the down stair on the first sampled position that the
  down-stair loop accepts, and the two tiles are then written, the down stair last.
*/
module Stairs {
  import opened Tiles
  import opened Board
  import opened Reach

  predicate AllInBounds(cs: seq<Coord>)
  {
    forall i :: 0 <= i < |cs| ==> InBounds(cs[i])
  }

  /** The up-stair loop's choice: the first sample from index `from` on that holds Floor. */
  function FloorFrom(m: Matrix, ups: seq<Coord>, from: nat): (i: nat)
    requires IsGrid(m) && AllInBounds(ups)
    requires exists k :: from <= k < |ups| && At(m, ups[k]) == Floor
    ensures from <= i < |ups| && At(m, ups[i]) == Floor
    ensures forall k :: from <= k < i ==> At(m, ups[k]) != Floor
    decreases |ups| - from
  {
    if At(m, ups[from]) == Floor then from else FloorFrom(m, ups, from + 1)
  }

  /**
    The down-stair loop's exit test as written: the sample coincides with the up stair,
    or the up stair can be reached from it.
  */
  ghost predicate Accepts(m: Matrix, up: Coord, down: Coord)
    requires IsGrid(m)
  {
    down == up || Reachable(m, up, down)
  }

  /** The down-stair loop's choice: the first sample from index `from` on that it accepts. */
  ghost function AcceptedFrom(m: Matrix, up: Coord, downs: seq<Coord>, from: nat): (i: nat)
    requires IsGrid(m)
    requires exists k :: from <= k < |downs| && Accepts(m, up, downs[k])
    ensures from <= i < |downs| && Accepts(m, up, downs[i])
    ensures forall k :: from <= k < i ==> !Accepts(m, up, downs[k])
    decreases |downs| - from
  {
    if Accepts(m, up, downs[from]) then from else AcceptedFrom(m, up, downs, from + 1)
  }

  /**
    The corrected exit test: a cell other than the up stair from which the up stair can
    be reached, so that the second write cannot erase the up stair.
  */
  ghost predicate AcceptsDistinct(m: Matrix, up: Coord, down: Coord)
    requires IsGrid(m)
  {
    down != up && Reachable(m, up, down)
  }

  ghost function DistinctFrom(m: Matrix, up: Coord, downs: seq<Coord>, from: nat): (i: nat)
    requires IsGrid(m)
    requires exists k :: from <= k < |downs| && AcceptsDistinct(m, up, downs[k])
    ensures from <= i < |downs| && AcceptsDistinct(m, up, downs[i])
    ensures forall k :: from <= k < i ==> !AcceptsDistinct(m, up, downs[k])
    decreases |downs| - from
  {
    if AcceptsDistinct(m, up, downs[from]) then from else DistinctFrom(m, up, downs, from + 1)
  }

  /** The map after both writes: UpStairs at `up`, then DownStairs at `down`. */
  function Placed(m: Matrix, up: Coord, down: Coord): (r: Matrix)
    requires IsGrid(m) && InBounds(up) && InBounds(down)
    ensures IsGrid(r) && At(r, down) == DownStairs
    ensures up != down ==> At(r, up) == UpStairs
    ensures forall c :: InBounds(c) && c != up && c != down ==> At(r, c) == At(m, c)
  {
    Write(Write(m, up, UpStairs), down, DownStairs)
  }

  /**
    On a Wall/Floor map with two different stair cells, the result holds exactly one
    UpStairs and exactly one DownStairs.
  */
  lemma StairsPlacedOnce(m: Matrix, up: Coord, down: Coord)
    requires IsGrid(m) && WallFloorOnly(m) && InBounds(up) && InBounds(down) && up != down
    ensures forall c :: InBounds(c) ==>
      (At(Placed(m, up, down), c) == UpStairs <==> c == up) &&
      (At(Placed(m, up, down), c) == DownStairs <==> c == down)
  {
    var r := Placed(m, up, down);
    forall c: Coord | InBounds(c)
      ensures (At(r, c) == UpStairs <==> c == up) && (At(r, c) == DownStairs <==> c == down)
    {
      if c != up && c != down {
        assert At(r, c) == m[c.0][c.1];
      }
    }
  }

  /**
    The loop as written accepts a down-stair sample equal to the up stair; the second
    write then overwrites the up stair and no UpStairs is left on a Wall/Floor map.
  */
  lemma CoincidentStairsLoseUp(m: Matrix, c: Coord)
    requires IsGrid(m) && WallFloorOnly(m) && InBounds(c)
    ensures Accepts(m, c, c)
    ensures forall d :: InBounds(d) ==> At(Placed(m, c, c), d) != UpStairs
  {
    var r := Placed(m, c, c);
    forall d: Coord | InBounds(d)
      ensures At(r, d) != UpStairs
    {
      if d != c {
        assert At(r, d) == m[d.0][d.1];
      }
    }
  }

  /**
    Writing the stairs keeps the up stair reachable from the down stair: both stair
    tiles let the fill in, and every other cell is unchanged.
  */
  lemma StairsStayConnected(m: Matrix, up: Coord, down: Coord)
    requires IsGrid(m) && InBounds(up) && InBounds(down) && Reachable(m, up, down)
    ensures Reachable(Placed(m, up, down), up, down)
  {
    var r := Placed(m, up, down);
    if up != down {
      var p :| |p| >= 1 && IsWalk(m, p) && p[0] == down && p[|p| - 1] == up;
      forall i | 1 <= i < |p|
        ensures InBounds(p[i]) && Adjacent(p[i - 1], p[i]) && !BlocksFill(At(r, p[i]))
      {
        if p[i] != up && p[i] != down {
          assert At(r, p[i]) == At(m, p[i]);
        }
      }
      assert IsWalk(r, p);
    }
  }

  /**
    The corrected placement on a Wall/Floor map: exactly one UpStairs and one DownStairs
    end up on the map, and the up stair can be reached from the down stair.
  */
  lemma DistinctPlacementSound(m: Matrix, up: Coord, down: Coord)
    requires IsGrid(m) && WallFloorOnly(m) && InBounds(up) && InBounds(down) && AcceptsDistinct(m, up, down)
    ensures forall c :: InBounds(c) ==>
      (At(Placed(m, up, down), c) == UpStairs <==> c == up) &&
      (At(Placed(m, up, down), c) == DownStairs <==> c == down)
    ensures Reachable(Placed(m, up, down), up, down)
  {
    StairsPlacedOnce(m, up, down);
    StairsStayConnected(m, up, down);
  }
}
