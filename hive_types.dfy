/** The pieces and moves of Hive (HiveTile.java, HiveMove.java). Both Java
    classes compare all their fields in `equals`, which datatype equality is. */
module HiveTypes {
  import opened HexGrid

  datatype TileType = QueenBee | Grasshopper | Beetle | Ant | Spider

  /** `HiveTileType.values()`, in the order a hand is created. */
  const TILE_TYPES: seq<TileType> := [QueenBee, Grasshopper, Beetle, Ant, Spider]

  datatype Colour = White | Black

  /** A tile of a given type and colour, with the hex it was put on. */
  datatype HiveTile = HiveTile(tileType: TileType, hex: Hex, colour: Colour)

  /** Put `pieceToMove` on `nextPosition`; a placement brings it from the
      hand, otherwise it moves from the hex it names. */
  datatype HiveMove = HiveMove(pieceToMove: HiveTile, nextPosition: Hex, placementMove: bool)
}
