/** Terrain kinds of the dungeon map and their fixed attributes (src/tiles.rs). */
module Tiles {

  /** The closed set of terrain kinds a map cell can hold. */
  datatype TileType = Wall | Floor | DownStairs | UpStairs | Fountain | Water | Lava

  /** Whether a creature may stand on the tile at run time. */
  function IsWalkable(t: TileType): (r: bool)
    ensures !r <==> (t == Wall || t == Water)
  {
    match t
    case Wall => false
    case Floor => true
    case DownStairs => true
    case UpStairs => true
    case Fountain => true
    case Water => false
    case Lava => true
  }

  /** Whether light passes through the tile. */
  function IsTransparent(t: TileType): (r: bool)
    ensures !r <==> (t == Wall || t == Lava)
  {
    match t
    case Wall => false
    case Floor => true
    case DownStairs => true
    case UpStairs => true
    case Fountain => true
    case Water => true
    case Lava => false
  }

  /** The texture asset drawn for the tile. */
  function TextureStr(t: TileType): string
  {
    match t
    case Wall => "dungeon/wall/catacombs_0.png"
    case Floor => "dungeon/floor/cobble_blood_1_new.png"
    case DownStairs => "dungeon/gateways/stone_stairs_down.png"
    case UpStairs => "dungeon/gateways/stone_stairs_up.png"
    case Fountain => "dungeon/blue_fountain.png"
    case Water => "dungeon/water/deep_water_2.png"
    case Lava => "dungeon/floor/lava_0.png"
  }

  /** A texture identifies its tile kind: no two kinds share an asset path. */
  lemma TextureStrInjective(s: TileType, t: TileType)
    ensures TextureStr(s) == TextureStr(t) ==> s == t
  {
  }

  /** One tile as handed to the renderer: its kind, its grid position and its level. */
  datatype Tile = Tile(tileType: TileType, x: nat, y: nat, level: nat)
}
