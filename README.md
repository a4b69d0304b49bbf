# shogue map grid — a Dafny model

This project models the map layer of the shogue roguelike: the 64×64 tile map (`Grid`,
`src/grid.rs`) and the tile kinds it holds (`TileType`, `Tile`, `src/tiles.rs`). It covers
every operation of the map:

- the all-Floor constructor;
- the text parser (`load_from_string`) and the printer (`pretty_print_grid`);
- the cellular-automaton cave generator, which seeds the map and then applies the 4-5 rule;
- the room-and-corridor generator, which places rooms by rejection sampling, carves them, chains them and joins them with L-shaped corridors;
- the flood-fill reachability test (`is_a_reachable_from_b`);
- stair placement.

The map is a class whose `tiles` is a `GRID_SIZE × GRID_SIZE` array, indexed `tiles[x, y]` as in the source.
Each imperative operation is a method with the source's loops. It is proved against a
functional specification, and the properties the source relies on are proved about that
specification:

- printing then parsing returns the map;
- the cave generator only ever produces Wall and Floor;
- placed rooms stay within their count, are drawn from their ranges and do not overlap;
- on the room map, every cell of every placed room can be reached from every other along the corridors;
- the flood fill answers exactly "is there an 8-connected walk from `b` to `a` whose cells after the start avoid Wall, Lava and Water";
- stair placement writes the two stairs and nothing else, and keeps the up stair reachable.

Randomness is a parameter, so each random draw becomes a caller-supplied sample:

- the cave seed is a Boolean matrix: true where the draw fell below the density;
- the room generator takes a stream of candidate rooms (at least 1000, the attempt cap), a
  permutation for the shuffle, and the two corridor end points of every edge;
- stair placement takes the stream of up-stair and of down-stair samples.

Printing returns the text it would write to standard output.

Modules:

| file | module | contents |
|---|---|---|
| tiles.dfy | Tiles | `TileType`, `Tile`, walkability, transparency, texture names |
| board.dfy | Board | `GRID_SIZE`, coordinates, the value view `Matrix` of the map, `Cells` of an array |
| textformat.dfy | TextFormat | character ↔ tile, the parser `Parse`, the printer `Print`, the round trip |
| cave.dfy | Cave | the wall count, the 4-5 rule, a pass `Step`, `CaveGrid` |
| rooms.dfy | Rooms | rooms, the overlap test, placement `PlanRooms`, shuffle, chain, corridors, `RoomBasedGrid` |
| reach.dfy | Reach | walks, `Reachable`, joining and reversing walks, straight runs, closed sets |
| connect.dfy | Connect | corridors as walks, the chain argument, connectivity of the room map |
| stairs.dfy | Stairs | the two stair loops' choices and the final writes |
| grid.dfy | Grid | the class `Grid` and the loop-level methods |

## Model

| member | source | states |
|---|---|---|
| Tiles.IsWalkable | src/tiles.rs:15-25 | a tile is not walkable exactly when it is Wall or Water |
| Tiles.IsTransparent | src/tiles.rs:27-37 | a tile is not transparent exactly when it is Wall or Lava |
| Tiles.TextureStr | src/tiles.rs:38-49 | the texture asset path of each of the seven tile kinds |
| Tiles.TextureStrInjective | src/tiles.rs:38-49 | different tiles have different texture names |
| Reach.BlocksFill | src/grid.rs:266 | every tile the flood fill enters is walkable, and Lava is the one walkable tile it refuses |
| TextFormat.CharTile | src/grid.rs:32-41 | the tile each of the seven tile characters writes; nothing for every other character |
| TextFormat.Fits | src/grid.rs:27-44 | every tile character of the text lands inside the map, the condition under which the parser does not index out of bounds |
| TextFormat.Parse | src/grid.rs:23-47 | the map built from an all-Floor start by reading the text character by character, each tile character writing its tile at the cursor |
| TextFormat.Print | src/grid.rs:226-241 | the printed text: for each row y, the glyphs of cells (0, y) … (63, y), then a newline; 64 × 65 characters |
| TextFormat.Glyph | src/grid.rs:229-237 | the parser reads the printer's character for a tile back as that tile |
| TextFormat.ParseStep | src/grid.rs:27-44 | one character: a tile character writes its tile at the cursor, which lies in the map; any other character writes nothing; a newline moves to column 0 of the next row, any other character one column right |
| TextFormat.ParseUnwritten | src/grid.rs:24-44 | a cell that no tile character landed on is still Floor |
| TextFormat.ParseLastWrite | src/grid.rs:27-44 | a cell holds the tile of the last tile character that landed on it |
| TextFormat.PrintRowLayout | src/grid.rs:227-240 | row y of the printed text is the glyphs of cells (0, y) … (63, y), then a newline |
| TextFormat.PrintCursor | src/grid.rs:227-240 | after k characters of printed text, the parser's cursor is at column k mod 65, row k div 65 |
| TextFormat.ParsePrintPrefix | src/grid.rs:23-47 | reading a prefix of a printed map stays within the map and writes exactly the cells printed so far |
| TextFormat.RoundTrip | src/grid.rs:226-241 | parsing the printed text of any map gives back that map |
| Cave.Seeded | src/grid.rs:57-67 | the seeded map is Wall exactly where the seed drew below the density, and Floor elsewhere |
| Cave.Contribution | src/grid.rs:75-86 | one neighbour offset contributes 1 when it is an in-map Wall other than the cell itself, else 0 |
| Cave.WallCount | src/grid.rs:73-88 | the number of Wall cells among the in-map 8-neighbours of a cell |
| Cave.WallCountBound | src/grid.rs:73-88 | the wall count excludes the cell itself, so it never exceeds 8 |
| Cave.WallCountCorner | src/grid.rs:73-88 | off-map neighbours do not count: the corner cell counts at most 3 walls |
| Cave.WallCountSurrounded | src/grid.rs:73-88 | an interior cell whose eight neighbours are all walls counts 8 |
| Cave.NextTile | src/grid.rs:89-101 | the 4-5 rule: the result is Wall or Floor, and it is Wall exactly when the 3×3 block around the cell holds at least 5 walls |
| Cave.Step | src/grid.rs:69-105 | a smoothing pass yields a map of Wall and Floor only |
| Cave.Smooth | src/grid.rs:69-105 | the map after n smoothing passes, each computed from the previous map |
| Cave.CaveGrid | src/grid.rs:49-107 | the cave generator's result: the seeded map after the given number of passes |
| Cave.CaveWallFloorOnly | src/grid.rs:49-107 | the cave generator produces only Wall and Floor, for every number of passes |
| Cave.CaveNoPasses | src/grid.rs:69 | with zero passes the seeded map is returned |
| Rooms.SeparateRoomsShareNoCell | src/grid.rs:129 | two rooms that pass the overlap test share no cell |
| Rooms.OverlappingRoomsShareCell | src/grid.rs:129 | two non-empty rooms that fail the overlap test share a cell, so the test rejects only real overlaps |
| Rooms.Overlaps | src/grid.rs:129 | the strict rejection test of a candidate against an accepted room |
| Rooms.SeparateIsDisjoint | src/grid.rs:127-137 | a list in which every room passed the test against all earlier ones has no cell in two rooms |
| Rooms.Attempt | src/grid.rs:123-138 | one placement attempt: the candidate is appended when rooms are still wanted and it passes the test against every accepted room |
| Rooms.PlanPrefix | src/grid.rs:122-139 | the accepted rooms after the first n attempts |
| Rooms.PlanRooms | src/grid.rs:122-139 | the accepted rooms after the 1000 attempts the loop may make |
| Rooms.PlanPrefixFull | src/grid.rs:122 | once the requested number of rooms is placed, further attempts change nothing, so the loop may stop early |
| Rooms.PlanPrefixSound | src/grid.rs:122-139 | after n attempts the rooms are at most the count, pairwise pass the overlap test, are drawn from the candidates and lie in their ranges, and the first attempt always places a room |
| Rooms.PlanRoomsSound | src/grid.rs:122-139 | the placed rooms number at most the count, at least one when one is asked for, lie in the size and position ranges, and are pairwise disjoint |
| Rooms.Shuffle | src/grid.rs:155 | the room list reordered by a permutation |
| Rooms.ShuffleDisjoint | src/grid.rs:155 | shuffling keeps the rooms disjoint |
| Rooms.PermutationOnto | src/grid.rs:155 | a shuffle permutation reaches every index, so every placed room appears in the shuffled list |
| Rooms.Chain | src/grid.rs:150-172 | the spanning loop's edges over n rooms: room k linked to room k + 1 |
| Rooms.ChainSpans | src/grid.rs:150-172 | the spanning loop's edges link room i to room i+1, n-1 edges, and every room is an end of some edge |
| Rooms.InAnyRoomPrefix | src/grid.rs:141-147 | carving one more room adds exactly that room's cells |
| Rooms.OnAnyCorridorStep | src/grid.rs:176-204 | carving one more corridor adds exactly that corridor's cells |
| Rooms.OnCorridor | src/grid.rs:182-203 | the cells one corridor floors: the horizontal run on the first point's row, the first point, and the vertical run on the second point's column |
| Rooms.CarveRoomCells | src/grid.rs:141-147 | a map with every cell of every room floored and the rest unchanged |
| Rooms.CarveCorridorCells | src/grid.rs:176-204 | a map with every cell of the first n corridors floored and the rest unchanged |
| Rooms.RoomGrid | src/grid.rs:115-204 | the room map holds only Wall and Floor |
| Rooms.RoomGridIsCarved | src/grid.rs:115-204 | carving the rooms and then the corridors into an all-Wall map gives the map that is Floor exactly on rooms and corridors |
| Rooms.RoomBasedGrid | src/grid.rs:109-206 | the room generator's result: Floor exactly on the planned rooms and the chain's corridors, Wall elsewhere |
| Connect.CorridorReach | src/grid.rs:182-203 | when one corridor's cells and its end point are open, the second point is reachable from the first, including the case where the turning cell is never floored and the walk turns diagonally |
| Connect.WithinRoom | src/grid.rs:141-147 | inside a carved room, every cell reaches every other |
| Connect.ChainReach | src/grid.rs:148-204 | when rooms and the corridors between consecutive rooms are open, any cell of room i reaches any cell of a room j ≥ i |
| Connect.ShuffledRoomsFloored | src/grid.rs:141-155 | every cell of a shuffled room is floored and inside the map |
| Connect.ChainEnds | src/grid.rs:176-181 | corridor k starts in shuffled room k and ends in shuffled room k + 1 |
| Connect.CorridorsFloored | src/grid.rs:176-204 | every cell of the first n corridors is floored |
| Connect.LinkedOf | src/grid.rs:141-204 | a map that is Floor on the rooms and the chain's corridors links the shuffled rooms along the chain |
| Connect.GeneratedLinked | src/grid.rs:109-206 | the generated room map links the shuffled rooms along the chain |
| Connect.ChainNeighbours | src/grid.rs:176-204 | on a linked map, corridor k leads from its point in room k to its point in room k + 1 |
| Connect.CorridorsConnect | src/grid.rs:176-204 | on the generated map, every corridor's second point is reachable from its first |
| Connect.LinkedConnected | src/grid.rs:141-204 | on a linked map, every cell of every room reaches every cell of every room, whatever the shuffle |
| Connect.RoomsConnected | src/grid.rs:109-206 | on the generated map, every cell of a placed room is reachable from every cell of a placed room |
| Connect.RoomMapConnected | src/grid.rs:109-206 | the same for all pairs of room cells at once |
| Reach.Enterable | src/grid.rs:258-269 | a neighbour the fill may push: in the map, adjacent and not blocking |
| Reach.Reachable | src/grid.rs:242-274 | `a` equals `b`, or an 8-connected walk leads from `b` to `a` through in-map cells after the start that do not block the fill |
| Reach.ReachableStep | src/grid.rs:253-270 | an unblocked in-map neighbour of a reachable cell is reachable |
| Reach.ReachableTarget | src/grid.rs:260-269 | any reachable cell other than the start is in the map and not blocking |
| Reach.ReachableTrans | src/grid.rs:242-274 | reachability composes: if `b` is reachable from `c` and `a` from `b`, `a` is reachable from `c` |
| Reach.ReachableSym | src/grid.rs:242-274 | between cells that do not block the fill, reachability is symmetric |
| Reach.ReachRowRight | src/grid.rs:184-185 | along a row of unblocked cells, the fill reaches the right end from the left end |
| Reach.ReachRowLeft | src/grid.rs:188-189 | along a row of unblocked cells, the fill reaches the left end from the right end |
| Reach.ReachColumnUp | src/grid.rs:196-197 | along a column of unblocked cells, the fill reaches the higher end from the lower end |
| Reach.ReachColumnDown | src/grid.rs:200-201 | along a column of unblocked cells, the fill reaches the lower end from the higher end |
| Reach.StartCellUnchecked | src/grid.rs:246-270 | the start cell is never checked: an unblocked neighbour is reachable even from a Wall |
| Reach.ClosedContainsReachable | src/grid.rs:247-273 | a set closed under the fill's moves that holds the start holds every reachable cell |
| Grid.CountSeenUnseen | src/grid.rs:253-270 | pushing cells not yet visited leaves the count of visited stack entries unchanged |
| Grid.FillStep | src/grid.rs:247-272 | popping a cell other than the target, marking it visited and pushing its unvisited enterable neighbours keeps the fill invariant |
| Grid.FillExhausted | src/grid.rs:247-273 | when the stack runs empty without meeting the target, the target is unreachable |
| Grid.FillMeasure | src/grid.rs:247-252 | every pop lowers the fill's termination measure |
| Stairs.FloorFrom | src/grid.rs:213-217 | the up-stair choice is the first sample holding Floor |
| Stairs.Accepts | src/grid.rs:219 | the down-stair loop's exit test as written: the sample equals the up stair, or the up stair can be reached from it |
| Stairs.AcceptedFrom | src/grid.rs:218-221 | the down-stair choice is the first sample that the loop's exit test accepts |
| Stairs.AcceptsDistinct | src/grid.rs:219 | the corrected exit test: the sample differs from the up stair and the up stair can be reached from it |
| Stairs.DistinctFrom | src/grid.rs:218-221 | the corrected down-stair choice: the first sample that differs from the up stair and reaches it |
| Stairs.Placed | src/grid.rs:222-224 | after the writes, the down cell is DownStairs, the up cell is UpStairs when it differs from the down cell, and every other cell is unchanged |
| Stairs.StairsPlacedOnce | src/grid.rs:222-224 | on a Wall/Floor map with two different stair cells, exactly one cell is UpStairs and exactly one is DownStairs |
| Stairs.CoincidentStairsLoseUp | src/grid.rs:219-224 | the exit test accepts a down sample equal to the up stair, and the map is then left with no UpStairs |
| Stairs.StairsStayConnected | src/grid.rs:209-224 | writing the stairs keeps the up stair reachable from the down stair |
| Stairs.DistinctPlacementSound | src/grid.rs:209-224 | with the corrected test on a Wall/Floor map, exactly one UpStairs and one DownStairs are placed, and the up stair is reachable from the down stair |
| Grid.CountWalls | src/grid.rs:73-88 | the neighbour loops count exactly the walls among the in-map neighbours |
| Grid.NextCell | src/grid.rs:73-101 | one cell of a pass is the 4-5 rule's tile for that cell |
| Grid.SmoothColumn | src/grid.rs:72-102 | the inner loop fills column x of the new map with the next pass and leaves the other columns alone |
| Grid.SmoothPass | src/grid.rs:70-104 | a pass over a snapshot yields a fresh map equal to one smoothing step of the old map |
| Grid.AnyOverlap | src/grid.rs:127-133 | the overlap loop reports whether the candidate fails the test against some accepted room |
| Grid.PlaceRooms | src/grid.rs:117-139 | the placement loop builds the planned room list, at most the count, within 1000 attempts; it stops only when the count is met or the attempts run out; at least one room when asked for; every room drawn from its ranges |
| Grid.CarveRooms | src/grid.rs:141-147 | the carving loops floor exactly the cells of the rooms |
| Grid.SpanningChain | src/grid.rs:150-172 | the spanning loop produces the chain, linking each room to the next one |
| Grid.ConnectRooms | src/grid.rs:148-204 | shuffling, chaining and corridor carving floor exactly the corridors of the chain's edges |
| Grid.FloorRow | src/grid.rs:183-191 | the horizontal run floors row y over columns [lo, hi) and nothing else |
| Grid.FloorColumn | src/grid.rs:195-202 | the vertical run floors column x over rows [lo, hi) and nothing else |
| Grid.CarveCorridor | src/grid.rs:182-203 | one corridor floors the horizontal run on the first point's row, the first point, and the vertical run on the second point's column |
| Grid.CarveCorridors | src/grid.rs:176-204 | the corridor loop floors exactly the cells on some edge's corridor |
| Grid.PushColumn | src/grid.rs:254-270 | for one column offset, the stack grows by exactly the enterable, unvisited neighbours in that column |
| Grid.PushNeighbours | src/grid.rs:253-271 | the stack grows by exactly the enterable, unvisited neighbours of the popped cell |
| Grid.WriteChar | src/grid.rs:32-41 | a tile character writes its tile at (x, y); any other character leaves the map unchanged |
| Grid.SetTile | src/grid.rs:223-224 | writes one tile and leaves every other cell unchanged |
| Grid.Grid.NewFloorGrid | src/grid.rs:18-21 | the new map is all Floor |
| Grid.Grid.LoadFromString | src/grid.rs:23-47 | the loaded map is the parse of the text |
| Grid.Grid.NewCellAutomataGrid | src/grid.rs:49-107 | the generated map is the seeded map after the given number of smoothing passes |
| Grid.Grid.NewRoomBasedGrid | src/grid.rs:109-206 | the generated map is Floor exactly on the placed rooms and on the chain's corridors, and Wall elsewhere, and every cell of a placed room is reachable from every other |
| Grid.Grid.PrintRow | src/grid.rs:228-239 | one printed row is the row's 64 glyphs, then a newline |
| Grid.Grid.PrettyPrint | src/grid.rs:226-241 | the printed text is the map's text form, which parses back to the map |
| Grid.Grid.IsReachable | src/grid.rs:242-274 | the flood fill answers true exactly when `a` is reachable from `b` |
| Grid.Grid.ChooseUp | src/grid.rs:213-217 | the up-stair loop picks the first sample holding Floor |
| Grid.Grid.DownAccepted | src/grid.rs:219 | the down loop's exit test: the sample equals the up stair, or the up stair is reachable from it |
| Grid.Grid.ChooseDown | src/grid.rs:218-221 | the down-stair loop picks the first sample its exit test accepts |
| Grid.Grid.DistinctDownAccepted | src/grid.rs:219 | the corrected test: a different cell from which the up stair can be reached |
| Grid.Grid.ChooseDistinctDown | src/grid.rs:218-221 | picks the first sample that passes the corrected test |
| Grid.Grid.PlaceStairs | src/grid.rs:209-225 | stair placement as written: UpStairs on the chosen up cell, then DownStairs on the chosen down cell, and nothing else changes |
| Grid.Grid.PlaceStairsDistinct | src/grid.rs:209-225 | stair placement with the corrected down-stair test and the same writes; the up stair is reachable from the down stair, and on a Wall/Floor map exactly one cell is UpStairs and exactly one is DownStairs |

## Left out

- The rest of the repository is not part of this model:
  - src/floor.rs and src/game_world.rs are plain data holders.
  - src/position.rs, src/creature.rs and src/player.rs are game entities, not map operations.
  - src/game_state.rs, src/game_plugin.rs and src/main.rs are engine wiring, rendering and input.
- `Tile` is modelled as a record with no operations, like the source.
- The random generator is not modelled. Each draw is a caller-supplied sample; which samples are likely is not modelled.
- Grid.Grid.NewCellAutomataGrid: the `f32` comparison of a draw with the density becomes a Boolean seed matrix.
- Grid.Grid.NewCellAutomataGrid: the `u32` pass count is an unbounded `nat`. Wrap-around cannot occur on a pass count.
- Grid.Grid.NewRoomBasedGrid: `gen_range` panics on an empty range. The model instead requires the samples to lie in their ranges (`SamplesValid`).
- Grid.Grid.NewRoomBasedGrid: a room count of 0 panics in the source when it indexes the empty visited list. The model requires at least one room.
- Grid.Grid.ChooseUp: the source loop samples until it hits Floor and may never end. The model takes a finite stream and requires that some sample is accepted.
- Grid.Grid.ChooseDown and Grid.Grid.ChooseDistinctDown: same as ChooseUp, for the down-stair loop.
- Grid.Grid.IsReachable: the source indexes `visited` with `b` and panics when `b` is off the map. The model requires `a == b` or `b` in the map.
- Grid.Grid.LoadFromString: a tile character landing outside the map panics in the source. The model requires every tile character to land inside the map (`Fits`).
- Grid.Grid.PrettyPrint: the text goes to standard output in the source. The model returns it as a string.
- Tiles.TextureStrInjective: the wildcard arm of `get_texture_str` cannot be reached, since every tile has its own arm, and is not modelled.
- The map is a fixed-size array stored in a value record in the source. Here it is a class with a constant array field, and copying a `Grid` is not modelled.
- The model follows the code as written:
  - the parser advances the column on characters it does not recognise;
  - the overlap test is strict, so rooms may touch;
  - the corridor's corner write floors the first point itself, not the turning cell.
- Rooms are carved in placement order, and the corridors join the rooms of the shuffled list.

## Findings

| source | as written | input that shows it | evidently intended | confidence | as-written member | corrected member |
|---|---|---|---|---|---|---|
| src/grid.rs:219 | the down-stair loop stops when the down sample equals the up stair, and line 224 then overwrites the up stair | a Wall/Floor map, up samples [c] and down samples [c] with c a Floor cell: the map ends with a DownStairs at c and no UpStairs | both stairs end up on the map, the down stair on a cell from which the up stair can be reached; line 224 erases the up stair whenever the two cells coincide, so the down cell must differ from the up cell | medium, not executed | Grid.Grid.PlaceStairs, Stairs.CoincidentStairsLoseUp | Grid.Grid.PlaceStairsDistinct, Stairs.DistinctPlacementSound |
