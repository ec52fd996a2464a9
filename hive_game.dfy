/** HiveGame.java: a Hive position (a board, two players and the turn number),
    the moves it offers the player to move, the position a move leads to, and
    how the game ends. */
module HiveGames {
  import opened Common
  import opened HexGrid
  import opened HiveTypes
  import opened Folds
  import opened MapStorage
  import opened HiveBoard
  import opened HiveReach
  import opened HiveRuleEngine
  import opened HiveMoves
  import opened Hands
  import opened HivePlayers
  import opened GameTree

  /* ----- Turns ----- */

  /** `getCurrentPlayer`: player1 moves on odd turns, player2 on even ones.
      Java's `%` and Dafny's agree on whether the remainder is zero. */
  predicate FirstPlayerMoves(turn: int)
  {
    turn % 2 != 0
  }

  /** Every turn hands the move to the other player; the first turn is
      player1's. */
  lemma TurnsAlternate(turn: int)
    ensures FirstPlayerMoves(turn + 1) <==> !FirstPlayerMoves(turn)
    ensures FirstPlayerMoves(turn + 2) <==> FirstPlayerMoves(turn)
    ensures FirstPlayerMoves(1) && !FirstPlayerMoves(2)
  {
  }

  /* ----- Placement moves ----- */

  /** The move `getPlacementMoves` builds: a new tile of the type and colour,
      named after the hex it is put on. */
  function PlacementMove(t: TileType, pos: Hex, colour: Colour): HiveMove
  {
    HiveMove(HiveTile(t, pos, colour), pos, true)
  }

  /** One placement of the type on each position, in order. */
  function PlacementsOf(t: TileType, positions: seq<Hex>, colour: Colour): seq<HiveMove>
  {
    seq(|positions|, i requires 0 <= i < |positions| => PlacementMove(t, positions[i], colour))
  }

  /** The loop over the tile types: the placements of every type of which the
      hand still holds at least one tile. */
  function TypePlacements(types: seq<TileType>, hand: Hand, positions: seq<Hex>, colour: Colour): seq<HiveMove>
  {
    if types == [] then []
    else
      var last := types[|types| - 1];
      TypePlacements(types[..|types| - 1], hand, positions, colour)
        + (if Remaining(hand, last) < 1 then [] else PlacementsOf(last, positions, colour))
  }

  /** The tiles of the colour on the board, buried ones included. */
  ghost function OwnTiles(b: Board, colour: Colour): multiset<HiveTile>
  {
    Bag(b.Keys, KeptBags(b, (t: HiveTile) => t.colour == colour))
  }

  /** The colour's queen bee is somewhere on the board. */
  ghost predicate HasQueen(b: Board, colour: Colour)
  {
    exists t :: t in Tiles(b) && t.tileType == QueenBee && t.colour == colour
  }

  /** A player with three tiles down and no queen must place the queen. */
  ghost predicate QueenForced(b: Board, colour: Colour)
  {
    |OwnTiles(b, colour)| >= 3 && !HasQueen(b, colour)
  }

  /** The list `getPlacementMoves` returns for the given positions. */
  ghost function PlacementMoves(b: Board, colour: Colour, hand: Hand, positions: seq<Hex>): seq<HiveMove>
  {
    if QueenForced(b, colour) then PlacementsOf(QueenBee, positions, colour)
    else TypePlacements(TILE_TYPES, hand, positions, colour)
  }

  /** What `generatePlacementPositions` may return: the origin on an empty
      board, the origin's neighbours next to a single tile, and otherwise
      empty hexes with no neighbour of the other colour; on a connected board
      whose tiles name their hexes, exactly the free placement hexes. */
  ghost predicate OfferedPositions(b: Board, colour: Colour, positions: seq<Hex>)
    requires WellStacked(b)
  {
    && (b == map[] ==> positions == [ORIGIN])
    && (b != map[] && PieceCount(b) < 2 ==> positions == Neighbours(ORIGIN))
    && (PieceCount(b) >= 2 ==> forall n :: n in positions ==> n !in b && ValidPlacement(b, colour, n))
    && (PieceCount(b) >= 2 && Located(b) && HiveConnected(b) ==>
          forall n :: n in positions <==> FreePlacement(b, colour, n))
  }

  lemma EveryTypeListed(t: TileType)
    ensures t in TILE_TYPES
  {
    match t
    case QueenBee =>
    case Grasshopper =>
    case Beetle =>
    case Ant =>
    case Spider =>
  }

  lemma PlacementsOfMembers(t: TileType, positions: seq<Hex>, colour: Colour, m: HiveMove)
    ensures m in PlacementsOf(t, positions, colour) <==> m == PlacementMove(t, m.nextPosition, colour) && m.nextPosition in positions
  {
    var ms := PlacementsOf(t, positions, colour);
    if m == PlacementMove(t, m.nextPosition, colour) && m.nextPosition in positions {
      var i :| 0 <= i < |positions| && positions[i] == m.nextPosition;
      assert ms[i] == m;
    }
  }

  lemma {:induction false} TypePlacementsMembers(types: seq<TileType>, hand: Hand, positions: seq<Hex>, colour: Colour, m: HiveMove)
    ensures m in TypePlacements(types, hand, positions, colour) <==>
      && m == PlacementMove(m.pieceToMove.tileType, m.nextPosition, colour)
      && m.pieceToMove.tileType in types
      && Remaining(hand, m.pieceToMove.tileType) >= 1
      && m.nextPosition in positions
    decreases |types|
  {
    if types != [] {
      var init, last := types[..|types| - 1], types[|types| - 1];
      TypePlacementsMembers(init, hand, positions, colour, m);
      PlacementsOfMembers(last, positions, colour, m);
      assert types == init + [last];
    }
  }

  /** `getPlacementMoves` offers a new tile of the player's colour on each
      offered position, named after that position: only the queen when the
      queen is forced, and otherwise every type the hand still holds. */
  lemma PlacementMovesMeaning(b: Board, colour: Colour, hand: Hand, positions: seq<Hex>, m: HiveMove)
    ensures m in PlacementMoves(b, colour, hand, positions) <==>
      && m == PlacementMove(m.pieceToMove.tileType, m.nextPosition, colour)
      && m.nextPosition in positions
      && (if QueenForced(b, colour) then m.pieceToMove.tileType == QueenBee else Remaining(hand, m.pieceToMove.tileType) >= 1)
  {
    if QueenForced(b, colour) {
      PlacementsOfMembers(QueenBee, positions, colour, m);
    } else {
      TypePlacementsMembers(TILE_TYPES, hand, positions, colour, m);
      EveryTypeListed(m.pieceToMove.tileType);
    }
  }

  /** The answers of `generatePlacementPositions` are offered positions, and
      it fails only on a board of two or more tiles. */
  lemma SearchOffers(b: Board, colour: Colour, r: Result<seq<Hex>>)
    requires WellStacked(b)
    requires b == map[] ==> r == Ok([ORIGIN])
    requires b != map[] && PieceCount(b) < 2 ==> r == Ok(Neighbours(ORIGIN))
    requires PieceCount(b) >= 2 ==> exists p :: p in b && PlacementsFrom(b, colour, TopOf(b, p).hex, r)
    requires PieceCount(b) >= 2 && Located(b) && HiveConnected(b) ==>
      r.Ok? && forall n :: n in r.value <==> FreePlacement(b, colour, n)
    ensures r.Err? ==> r == Err(NullPointer) && PieceCount(b) >= 2
    ensures r.Ok? ==> OfferedPositions(b, colour, r.value)
  {
    if PieceCount(b) >= 2 {
      var p :| p in b && PlacementsFrom(b, colour, TopOf(b, p).hex, r);
      if r.Ok? {
        forall n | n in r.value
          ensures n !in b && ValidPlacement(b, colour, n)
        {
          assert PlacementTarget(b, colour, TopOf(b, p).hex, n);
        }
      }
    }
  }

  /** The pieces `getAllPiecesOfPlayer` lists are the colour's tiles. */
  lemma OwnTilesListed(b: Board, colour: Colour, tiles: seq<HiveTile>)
    requires forall t :: multiset(tiles)[t] == if t.colour == colour then Tiles(b)[t] else 0
    ensures multiset(tiles) == OwnTiles(b, colour)
    ensures |tiles| == |OwnTiles(b, colour)|
  {
    var keep := (t: HiveTile) => t.colour == colour;
    forall t
      ensures multiset(tiles)[t] == OwnTiles(b, colour)[t]
    {
      KeptBagCount(b.Keys, b, keep, t);
    }
    assert multiset(tiles) == OwnTiles(b, colour);
  }

  /* ----- Move validation ----- */

  /** `validateHiveMove` as written: the piece has the mover's colour; a
      placement goes where no neighbour is topped by the other colour, and
      any other move needs the mover's queen on the board. */
  ghost predicate ValidMoveAsWritten(b: Board, colour: Colour, m: HiveMove)
    requires WellStacked(b)
  {
    && m.pieceToMove.colour == colour
    && (if m.placementMove then ValidPlacement(b, colour, m.nextPosition) else HasQueen(b, colour))
  }

  /** Validation as the game evidently intends it: the same, except that the
      colour rule for placements starts once two tiles are down, so that the
      reply to the opening tile may touch it. */
  ghost predicate ValidMove(b: Board, colour: Colour, m: HiveMove)
    requires WellStacked(b)
  {
    && m.pieceToMove.colour == colour
    && (if m.placementMove then PieceCount(b) < 2 || ValidPlacement(b, colour, m.nextPosition)
        else HasQueen(b, colour))
  }

  /** From two tiles on, the two validations agree. */
  lemma ValidMoveFromTwoTiles(b: Board, colour: Colour, m: HiveMove)
    requires WellStacked(b) && PieceCount(b) >= 2
    ensures ValidMove(b, colour, m) <==> ValidMoveAsWritten(b, colour, m)
  {
  }

  /** On every board, every placement that `getPlacementMoves` offers the
      player to move passes validation. */
  lemma OfferedPlacementsValid(b: Board, colour: Colour, hand: Hand, positions: seq<Hex>, m: HiveMove)
    requires WellStacked(b)
    requires OfferedPositions(b, colour, positions)
    requires m in PlacementMoves(b, colour, hand, positions)
    ensures ValidMove(b, colour, m)
  {
    PlacementMovesMeaning(b, colour, hand, positions, m);
  }

  /** The board after the opening placement of a tile on the origin. */
  function Opening(t: HiveTile): Board
  {
    map[ORIGIN := [t]]
  }

  lemma SingleTileCount(t: HiveTile)
    ensures Tiles(Opening(t)) == multiset{t}
    ensures PieceCount(Opening(t)) == 1
  {
    var b := Opening(t);
    var f := StackBags(b);
    BagRemove(b.Keys, f, ORIGIN);
    assert b.Keys - {ORIGIN} == {};
    assert f(ORIGIN) == multiset{t};
  }

  /** As written, validation refuses every reply to the opening tile: on the
      second turn the offered positions are the origin's neighbours, each of
      them next to the first player's tile, so none is a valid placement and
      `makeMove` throws for every placement the second player is offered. */
  lemma OpeningReplyRefused(first: HiveTile, colour: Colour, hand: Hand, positions: seq<Hex>, m: HiveMove)
    requires colour != first.colour
    requires OfferedPositions(Opening(first), colour, positions)
    requires m in PlacementMoves(Opening(first), colour, hand, positions)
    ensures !ValidMoveAsWritten(Opening(first), colour, m)
  {
    SingleTileCount(first);
    assert ORIGIN in Opening(first);
    assert positions == Neighbours(ORIGIN);
    PlacementMovesMeaning(Opening(first), colour, hand, positions, m);
    var d :| 0 <= d < 6 && Neighbours(ORIGIN)[d] == m.nextPosition;
    NextToOpeningRefused(first, colour, d);
  }

  /** A hex next to the origin has the opening tile as a neighbour. */
  lemma NextToOpeningRefused(first: HiveTile, colour: Colour, d: int)
    requires colour != first.colour && 0 <= d < 6
    ensures !ValidPlacement(Opening(first), colour, HexNeighbour(ORIGIN, d))
  {
    var back := (d + 3) % 6;
    OppositeDirections(d);
    var n := HexNeighbour(ORIGIN, d);
    assert HexNeighbour(n, back) == ORIGIN;
  }

  /* ----- Piece moves ----- */

  /** The random draw in `isOneHiveWhileMoving` ends for this tile: when it
      draws at all, some top tile names a hex other than the tile's. */
  ghost predicate DrawsFor(b: Board, t: HiveTile)
    requires WellStacked(b)
  {
    DrawsStart(b, t) ==> exists p :: p in b && TopOf(b, p).hex != t.hex
  }

  /** A list `generatePieceMoves` may return for the tile. */
  ghost predicate PieceOffers(b: Board, t: HiveTile, moves: seq<HiveMove>)
    requires WellStacked(b)
  {
    moves == [] || KindMoves(b, t, Ok(moves))
  }

  /** A piece move `getAvailableMoves` keeps: one some piece of the colour
      may make, and which passes validation for the player to move. */
  ghost predicate OfferedPieceMove(b: Board, colour: Colour, mover: Colour, m: HiveMove)
    requires WellStacked(b)
  {
    && ValidMove(b, mover, m)
    && exists t, ms :: t in Tiles(b) && t.colour == colour && PieceOffers(b, t, ms) && m in ms
  }

  /** The valid moves of some list the piece's generator may return are all
      kept. */
  ghost predicate Covered(b: Board, mover: Colour, t: HiveTile, kept: seq<HiveMove>)
    requires WellStacked(b)
  {
    exists ms :: PieceOffers(b, t, ms) && forall m :: m in ms && ValidMove(b, mover, m) ==> m in kept
  }

  lemma CoveredGrows(b: Board, mover: Colour, t: HiveTile, kept: seq<HiveMove>, more: seq<HiveMove>)
    requires WellStacked(b) && Covered(b, mover, t, kept)
    ensures Covered(b, mover, t, kept + more)
  {
    var ms :| PieceOffers(b, t, ms) && forall m :: m in ms && ValidMove(b, mover, m) ==> m in kept;
    assert forall m :: m in ms && ValidMove(b, mover, m) ==> m in kept + more;
  }

  /** `getAvailableMoves` for a player of the colour while `mover` is to
      move: a shuffle of the placement moves for some offered positions
      followed by piece moves, every one of which some piece of the colour may
      make and validation accepts, and which keep every valid move of some
      list each piece's generator may return. */
  ghost predicate Offers(b: Board, colour: Colour, mover: Colour, hand: Hand, moves: seq<HiveMove>)
    requires WellStacked(b)
  {
    exists positions, pieceMoves ::
      && OfferedPositions(b, colour, positions)
      && multiset(moves) == multiset(PlacementMoves(b, colour, hand, positions) + pieceMoves)
      && (forall m :: m in pieceMoves ==> OfferedPieceMove(b, colour, mover, m))
      && (forall t :: t in Tiles(b) && t.colour == colour ==> Covered(b, mover, t, pieceMoves))
  }

  /** The list of a colour's tiles holds exactly the tiles of that colour. */
  lemma PiecesListed(b: Board, colour: Colour, pieces: seq<HiveTile>)
    requires forall t :: multiset(pieces)[t] == if t.colour == colour then Tiles(b)[t] else 0
    ensures forall t :: t in pieces <==> t in Tiles(b) && t.colour == colour
  {
    forall t ensures t in pieces <==> t in Tiles(b) && t.colour == colour {
      assert t in pieces <==> multiset(pieces)[t] > 0;
    }
  }

  /** Placements for offered positions and piece moves that cover every
      listed piece make an offer. */
  lemma OffersFrom(b: Board, colour: Colour, mover: Colour, hand: Hand, positions: seq<Hex>,
                   pieceMoves: seq<HiveMove>, pieces: seq<HiveTile>, moves: seq<HiveMove>)
    requires WellStacked(b)
    requires OfferedPositions(b, colour, positions)
    requires multiset(moves) == multiset(PlacementMoves(b, colour, hand, positions) + pieceMoves)
    requires forall m :: m in pieceMoves ==> OfferedPieceMove(b, colour, mover, m)
    requires forall t :: t in pieces <==> t in Tiles(b) && t.colour == colour
    requires forall t :: t in pieces ==> Covered(b, mover, t, pieceMoves)
    ensures Offers(b, colour, mover, hand, moves)
  {
  }

  /* ----- Playing a move ----- */

  /** With the corrected validation, every move `getAvailableMoves` offers
      the player to move passes `isValidMove`, so `makeMove` refuses none of
      them for being invalid. */
  lemma OfferedMovesValid(b: Board, colour: Colour, hand: Hand, moves: seq<HiveMove>)
    requires WellStacked(b) && Offers(b, colour, colour, hand, moves)
    ensures forall m :: m in moves ==> ValidMove(b, colour, m)
  {
    var positions, pieceMoves :|
      && OfferedPositions(b, colour, positions)
      && multiset(moves) == multiset(PlacementMoves(b, colour, hand, positions) + pieceMoves)
      && (forall m :: m in pieceMoves ==> OfferedPieceMove(b, colour, colour, m));
    forall m | m in moves
      ensures ValidMove(b, colour, m)
    {
      OfferedMoveValid(b, colour, hand, positions, pieceMoves, moves, m);
    }
  }

  /** One offered move: a placement at an offered position, or a piece move
      that validation already accepted. */
  lemma OfferedMoveValid(b: Board, colour: Colour, hand: Hand, positions: seq<Hex>, pieceMoves: seq<HiveMove>,
                         moves: seq<HiveMove>, m: HiveMove)
    requires WellStacked(b) && OfferedPositions(b, colour, positions)
    requires multiset(moves) == multiset(PlacementMoves(b, colour, hand, positions) + pieceMoves)
    requires forall m' :: m' in pieceMoves ==> ValidMove(b, colour, m')
    requires m in moves
    ensures ValidMove(b, colour, m)
  {
    assert m in multiset(PlacementMoves(b, colour, hand, positions) + pieceMoves);
    if m in PlacementMoves(b, colour, hand, positions) {
      OfferedPlacementsValid(b, colour, hand, positions, m);
    }
  }

  /** The tile a movement puts down: the piece's type and colour, named after
      its destination. */
  function Moved(m: HiveMove): HiveTile
  {
    HiveTile(m.pieceToMove.tileType, m.nextPosition, m.pieceToMove.colour)
  }

  /** The board `processHiveMove` builds on its copy: a placement puts the
      piece on its destination; a movement pops the stack the piece names and
      puts the moved tile on the destination. */
  function Played(b: Board, m: HiveMove): Result<Board>
  {
    if m.placementMove then Ok(Placed(b, m.nextPosition, m.pieceToMove))
    else
      match Removed(b, m.pieceToMove.hex)
      case Err(e) => Err(e)
      case Ok(rest) => Ok(Placed(rest, m.nextPosition, Moved(m)))
  }

  /** A placement adds exactly the placed tile, on top of its destination. */
  lemma PlacementEffect(b: Board, m: HiveMove)
    requires WellStacked(b) && m.placementMove
    ensures Played(b, m).Ok?
    ensures Tiles(Played(b, m).value) == Tiles(b) + multiset{m.pieceToMove}
    ensures PieceCount(Played(b, m).value) == PieceCount(b) + 1
    ensures Top(Played(b, m).value, m.nextPosition) == Some(m.pieceToMove)
    ensures WellStacked(Played(b, m).value)
  {
    PlacedShape(b, m.nextPosition, m.pieceToMove);
    PlacedTiles(b, m.nextPosition, m.pieceToMove);
  }

  /** A movement fails exactly when the hex the piece names holds nothing;
      otherwise the top tile of that hex leaves, the moved tile lands on top
      of the destination and the number of tiles stays the same. */
  lemma MovementEffect(b: Board, m: HiveMove)
    requires WellStacked(b) && !m.placementMove
    ensures Played(b, m).Err? <==> Top(b, m.pieceToMove.hex).None?
    ensures Played(b, m).Err? ==> Played(b, m).error == IllegalArgument
    ensures Played(b, m).Ok? ==>
      && Tiles(Played(b, m).value) + multiset{Top(b, m.pieceToMove.hex).value} == Tiles(b) + multiset{Moved(m)}
      && PieceCount(Played(b, m).value) == PieceCount(b)
      && Top(Played(b, m).value, m.nextPosition) == Some(Moved(m))
      && WellStacked(Played(b, m).value)
  {
    RemovedEffect(b, m.pieceToMove.hex);
    if Removed(b, m.pieceToMove.hex).Ok? {
      var rest := Removed(b, m.pieceToMove.hex).value;
      PlacedShape(rest, m.nextPosition, Moved(m));
      PlacedTiles(rest, m.nextPosition, Moved(m));
    }
  }

  /** Every tile names the hex it sits on, buried ones included. */
  ghost predicate Anchored(b: Board)
  {
    forall p, t :: p in b && t in b[p] ==> t.hex == p
  }

  lemma AnchoredLocated(b: Board)
    requires WellStacked(b) && Anchored(b)
    ensures Located(b)
  {
  }

  /** On an anchored board the random draw always ends. */
  lemma AnchoredDraws(b: Board, t: HiveTile)
    requires WellStacked(b) && Anchored(b)
    ensures DrawsFor(b, t)
  {
    if DrawsStart(b, t) {
      LocatedDrawSucceeds(b, t);
    }
  }

  /** Movements, and placements of a tile named after its destination (the
      only placements `getPlacementMoves` offers), keep every tile on the hex
      it names. */
  lemma PlayKeepsAnchored(b: Board, m: HiveMove)
    requires WellStacked(b) && Anchored(b)
    requires m.placementMove ==> m.pieceToMove.hex == m.nextPosition
    requires Played(b, m).Ok?
    ensures Anchored(Played(b, m).value)
  {
    if !m.placementMove {
      var p := m.pieceToMove.hex;
      var rest := Removed(b, p).value;
      assert Anchored(rest) by {
        forall q: Hex, t: HiveTile | q in rest && t in rest[q]
          ensures t.hex == q
        {
          if q == p {
            assert t in b[p];
          }
        }
      }
    }
  }

  /* ----- Terminal positions and results ----- */

  /** All six neighbours of the hex are occupied. */
  predicate Surrounded(b: Board, h: Hex)
  {
    forall k :: 0 <= k < 6 ==> HexNeighbour(h, k) in b
  }

  /** How many of the first n neighbours of the hex are occupied. */
  function OccupiedAmong(b: Board, h: Hex, n: nat): nat
    requires n <= 6
  {
    if n == 0 then 0
    else OccupiedAmong(b, h, n - 1) + if HexNeighbour(h, n - 1) in b then 1 else 0
  }

  /** The count the neighbour loops compute. */
  function OccupiedAround(b: Board, h: Hex): nat
  {
    OccupiedAmong(b, h, 6)
  }

  lemma {:induction false} OccupiedAmongBounds(b: Board, h: Hex, n: nat)
    requires n <= 6
    ensures OccupiedAmong(b, h, n) <= n
    ensures OccupiedAmong(b, h, n) == n <==> forall k :: 0 <= k < n ==> HexNeighbour(h, k) in b
  {
    if n > 0 {
      OccupiedAmongBounds(b, h, n - 1);
    }
  }

  /** Counting six occupied neighbours is being surrounded. */
  lemma SurroundedCount(b: Board, h: Hex)
    ensures OccupiedAround(b, h) <= 6
    ensures OccupiedAround(b, h) == 6 <==> Surrounded(b, h)
  {
    OccupiedAmongBounds(b, h, 6);
  }

  /** Some queen on the board, buried or not, has all six neighbours
      occupied. */
  ghost predicate SomeQueenSurrounded(b: Board)
  {
    exists q :: q in Tiles(b) && q.tileType == QueenBee && Surrounded(b, q.hex)
  }

  /** The list `getQueens` returns: the board's queens, with multiplicity. */
  ghost predicate QueensOf(b: Board, queens: seq<HiveTile>)
  {
    forall t :: multiset(queens)[t] == if t.tileType == QueenBee then Tiles(b)[t] else 0
  }

  lemma {:induction false} DistinctWithin(s: seq<Hex>, a: set<Hex>)
    requires Distinct(s) && forall i :: 0 <= i < |s| ==> s[i] in a
    ensures |s| <= |a|
    decreases |s|
  {
    if s != [] {
      var x := s[|s| - 1];
      var init := s[..|s| - 1];
      forall i | 0 <= i < |init|
        ensures init[i] in a - {x}
      {
        assert init[i] == s[i];
      }
      DistinctWithin(init, a - {x});
    }
  }

  lemma {:induction false} BagAtLeastKeys(keys: set<Hex>, b: Board)
    requires WellStacked(b) && keys <= b.Keys
    ensures |Bag(keys, StackBags(b))| >= |keys|
    decreases keys
  {
    if keys != {} {
      var k :| k in keys;
      BagRemove(keys, StackBags(b), k);
      BagAtLeastKeys(keys - {k}, b);
      assert |StackBag(b, k)| == |b[k]| >= 1;
    }
  }

  /** The comment of `isTerminalState` holds on an anchored board: a
      surrounded queen sits among six occupied hexes, so at least seven tiles
      are down, and the shortcut below seven tiles loses nothing. */
  lemma SurroundedNeedsSeven(b: Board, q: HiveTile)
    requires WellStacked(b) && Anchored(b)
    requires q in Tiles(b) && Surrounded(b, q.hex)
    ensures PieceCount(b) >= 7
  {
    TilesMember(b, q);
    var h := q.hex;
    var s := [h] + Neighbours(h);
    forall i, j | 0 <= i < j < |s|
      ensures s[i] != s[j]
    {
      if i == 0 {
        NeighbourIsAdjacent(h, j - 1);
        DistanceSymmetric(h, s[j]);
      } else {
        NeighboursDistinct(h, i - 1, j - 1);
      }
    }
    DistinctWithin(s, b.Keys);
    BagAtLeastKeys(b.Keys, b);
  }

  /** `getGameResult` over the queens in the order listed: the first
      surrounded queen decides LOSS (the player's own) or WIN, a second one
      makes it a DRAW, and none leaves it null. */
  function Verdict(b: Board, colour: Colour, queens: seq<HiveTile>): Option<GameResult>
  {
    if queens == [] then None
    else
      var earlier := Verdict(b, colour, queens[..|queens| - 1]);
      var q := queens[|queens| - 1];
      if !Surrounded(b, q.hex) then earlier
      else if earlier.None? then Some(if q.colour == colour then Loss else Win)
      else Some(Draw)
  }

  /** How many of the listed queens are surrounded. */
  function SurroundedQueens(b: Board, queens: seq<HiveTile>): nat
  {
    if queens == [] then 0
    else SurroundedQueens(b, queens[..|queens| - 1]) + if Surrounded(b, queens[|queens| - 1].hex) then 1 else 0
  }

  lemma {:induction false} SurroundedQueensNone(b: Board, queens: seq<HiveTile>)
    ensures SurroundedQueens(b, queens) == 0 <==> forall q :: q in queens ==> !Surrounded(b, q.hex)
  {
    if queens != [] {
      var init := queens[..|queens| - 1];
      SurroundedQueensNone(b, init);
      assert queens == init + [queens[|queens| - 1]];
    }
  }

  /** The result names no outcome exactly when no queen is surrounded, a DRAW
      exactly when two or more are, and with one surrounded queen a LOSS when
      it is the player's colour and a WIN when it is not. */
  lemma {:induction false} VerdictMeaning(b: Board, colour: Colour, queens: seq<HiveTile>)
    ensures Verdict(b, colour, queens) == None <==> SurroundedQueens(b, queens) == 0
    ensures Verdict(b, colour, queens) == Some(Draw) <==> SurroundedQueens(b, queens) >= 2
    ensures SurroundedQueens(b, queens) == 1 ==>
      (Verdict(b, colour, queens) == Some(Loss) <==> exists q :: q in queens && Surrounded(b, q.hex) && q.colour == colour)
    ensures SurroundedQueens(b, queens) == 1 ==>
      (Verdict(b, colour, queens) == Some(Win) <==> exists q :: q in queens && Surrounded(b, q.hex) && q.colour != colour)
  {
    if queens != [] {
      var init, q := queens[..|queens| - 1], queens[|queens| - 1];
      VerdictMeaning(b, colour, init);
      SurroundedQueensNone(b, init);
      assert queens == init + [q];
    }
  }

  lemma {:induction false} SurroundedQueensAppend(b: Board, xs: seq<HiveTile>, ys: seq<HiveTile>)
    ensures SurroundedQueens(b, xs + ys) == SurroundedQueens(b, xs) + SurroundedQueens(b, ys)
    decreases |ys|
  {
    if ys == [] {
      assert xs + ys == xs;
    } else {
      var init := ys[..|ys| - 1];
      SurroundedQueensAppend(b, xs, init);
      assert (xs + ys)[..|xs + ys| - 1] == xs + init;
    }
  }

  lemma {:induction false} SurroundedQueensPermuted(b: Board, xs: seq<HiveTile>, ys: seq<HiveTile>)
    requires multiset(xs) == multiset(ys)
    ensures SurroundedQueens(b, xs) == SurroundedQueens(b, ys)
    decreases |xs|
  {
    if xs != [] {
      var init, x := xs[..|xs| - 1], xs[|xs| - 1];
      assert xs == init + [x];
      assert x in multiset(ys);
      var j :| 0 <= j < |ys| && ys[j] == x;
      var rest := ys[..j] + ys[j + 1..];
      RemovedElsewhere(xs, ys, j);
      SurroundedQueensPermuted(b, init, rest);
      SurroundedQueensRemove(b, ys, j);
    }
  }

  /** Taking the last element off xs and the same element at j off a
      permutation ys leaves permutations of each other. */
  lemma RemovedElsewhere(xs: seq<HiveTile>, ys: seq<HiveTile>, j: int)
    requires multiset(xs) == multiset(ys) && xs != [] && 0 <= j < |ys| && ys[j] == xs[|xs| - 1]
    ensures multiset(xs[..|xs| - 1]) == multiset(ys[..j] + ys[j + 1..])
  {
    var init, x, rest := xs[..|xs| - 1], xs[|xs| - 1], ys[..j] + ys[j + 1..];
    assert xs == init + [x];
    assert ys == ys[..j] + [x] + ys[j + 1..];
    assert multiset(ys) == multiset(ys[..j]) + multiset{x} + multiset(ys[j + 1..]);
    assert multiset(rest) == multiset(ys[..j]) + multiset(ys[j + 1..]);
    assert multiset(xs) == multiset(init) + multiset{x};
    forall e ensures multiset(init)[e] == multiset(rest)[e] {
      assert multiset(xs)[e] == multiset(init)[e] + multiset{x}[e];
      assert multiset(ys)[e] == multiset(rest)[e] + multiset{x}[e];
    }
  }

  /** The count over ys is the count without the element at j, plus one when
      that element is a surrounded queen. */
  lemma SurroundedQueensRemove(b: Board, ys: seq<HiveTile>, j: int)
    requires 0 <= j < |ys|
    ensures SurroundedQueens(b, ys) == SurroundedQueens(b, ys[..j] + ys[j + 1..]) + (if Surrounded(b, ys[j].hex) then 1 else 0)
  {
    assert ys == ys[..j] + [ys[j]] + ys[j + 1..];
    SurroundedQueensAppend(b, ys[..j] + [ys[j]], ys[j + 1..]);
    SurroundedQueensAppend(b, ys[..j], [ys[j]]);
    SurroundedQueensAppend(b, ys[..j], ys[j + 1..]);
    assert [ys[j]][..0] == [];
  }

  /** The result does not depend on the order the board lists its queens in. */
  lemma VerdictOrderFree(b: Board, colour: Colour, xs: seq<HiveTile>, ys: seq<HiveTile>)
    requires multiset(xs) == multiset(ys)
    ensures Verdict(b, colour, xs) == Verdict(b, colour, ys)
  {
    SurroundedQueensPermuted(b, xs, ys);
    VerdictMeaning(b, colour, xs);
    VerdictMeaning(b, colour, ys);
    forall q ensures q in xs <==> q in ys {
      assert q in xs <==> q in multiset(xs);
      assert q in ys <==> q in multiset(ys);
    }
    if SurroundedQueens(b, xs) == 1 {
      var own := exists q :: q in xs && Surrounded(b, q.hex) && q.colour == colour;
      assert own <==> exists q :: q in ys && Surrounded(b, q.hex) && q.colour == colour;
      var vxs := Verdict(b, colour, xs);
      assert vxs != None && vxs != Some(Draw);
      assert vxs.Some? && vxs.value != Draw;
      var vys := Verdict(b, colour, ys);
      assert vys != None && vys != Some(Draw);
      assert vys.Some? && vys.value != Draw;
    }
  }

  /** A terminal position has a result: some queen is surrounded, so the
      result is not null, whatever the player. */
  lemma TerminalHasResult(b: Board, colour: Colour, queens: seq<HiveTile>)
    requires QueensOf(b, queens) && SomeQueenSurrounded(b)
    ensures Verdict(b, colour, queens).Some?
  {
    var q :| q in Tiles(b) && q.tileType == QueenBee && Surrounded(b, q.hex);
    assert multiset(queens)[q] > 0;
    SurroundedQueensNone(b, queens);
    VerdictMeaning(b, colour, queens);
  }

  /** `hasPieceAt` for each of the six neighbours, counting the occupied ones. */
  method CountNeighbours(board: HiveBoardState, h: Hex) returns (n: nat)
    ensures n == OccupiedAround(board.Contents(), h)
  {
    var ns := Neighbours(h);
    n := 0;
    var i := 0;
    while i < 6
      invariant 0 <= i <= 6
      invariant n == OccupiedAmong(board.Contents(), h, i)
    {
      if board.HasPieceAt(ns[i]) {
        n := n + 1;
      }
      i := i + 1;
    }
  }

  /** The type loop of `getPlacementMoves`: for each tile type, in table
      order, still in the player's hand, one placement per position. */
  method PlacementsByType(player: HivePlayer, positions: seq<Hex>, colour: Colour) returns (moves: seq<HiveMove>)
    ensures moves == TypePlacements(TILE_TYPES, player.tiles, positions, colour)
  {
    moves := [];
    var i := 0;
    while i < |TILE_TYPES|
      invariant 0 <= i <= |TILE_TYPES|
      invariant moves == TypePlacements(TILE_TYPES[..i], player.tiles, positions, colour)
    {
      var t := TILE_TYPES[i];
      assert TILE_TYPES[..i + 1][..i] == TILE_TYPES[..i];
      if player.GetTypeRemainingTiles(t) >= 1 {
        var block := PlacementsAt(t, positions, colour);
        moves := moves + block;
      }
      i := i + 1;
    }
    assert TILE_TYPES[..|TILE_TYPES|] == TILE_TYPES;
  }

  /** The inner loop of `getPlacementMoves`: one placement of the type on
      each position, in order. */
  method PlacementsAt(t: TileType, positions: seq<Hex>, colour: Colour) returns (moves: seq<HiveMove>)
    ensures moves == PlacementsOf(t, positions, colour)
  {
    moves := [];
    var j := 0;
    while j < |positions|
      invariant 0 <= j <= |positions|
      invariant moves == PlacementsOf(t, positions[..j], colour)
    {
      moves := moves + [PlacementMove(t, positions[j], colour)];
      j := j + 1;
    }
    assert positions[..|positions|] == positions;
  }

  /** What `processHiveMove` gives the mover after a placement: a new player
      of the same colour and kind, with one tile of the type fewer, built by a
      (hand, colour) constructor that sets the ID to the class's simple name,
      as the field initialiser does. */
  ghost predicate HandTaken(mover: HivePlayer, p: HivePlayer, t: TileType)
    reads mover, p
  {
    && p.colour == mover.colour && p.isAI == mover.isAI
    && p.playerID == Some(SimpleName(mover.isAI))
    && Decremented(mover.tiles, t) == Ok(p.tiles)
  }

  class HiveGame {
    const board: HiveBoardState
    const player1: HivePlayer
    const player2: HivePlayer
    var turn: int

    ghost predicate Valid()
      reads board.store
    {
      board.Valid()
    }

    /** A game at its first turn. */
    constructor (player1: HivePlayer, player2: HivePlayer, board: HiveBoardState)
      ensures this.player1 == player1 && this.player2 == player2 && this.board == board
      ensures turn == 1
    {
      this.player1 := player1;
      this.player2 := player2;
      this.board := board;
      turn := 1;
    }

    constructor WithTurn(player1: HivePlayer, player2: HivePlayer, board: HiveBoardState, turn: int)
      ensures this.player1 == player1 && this.player2 == player2 && this.board == board
      ensures this.turn == turn
    {
      this.player1 := player1;
      this.player2 := player2;
      this.board := board;
      this.turn := turn;
    }

    function CurrentPlayer(): HivePlayer
      reads this
    {
      if FirstPlayerMoves(turn) then player1 else player2
    }

    function CurrentOpponent(): HivePlayer
      reads this
    {
      if FirstPlayerMoves(turn) then player2 else player1
    }

    /** `nextTurn`: the turn advances and the players swap roles. */
    method NextTurn()
      modifies this
      ensures turn == old(turn) + 1
      ensures CurrentPlayer() == old(CurrentOpponent()) && CurrentOpponent() == old(CurrentPlayer())
    {
      TurnsAlternate(turn);
      turn := turn + 1;
    }

    /** `isValidMove` and `validateHiveMove`, with the colour rule for
      placements waived while fewer than two tiles are down. */
    method ValidateHiveMove(m: HiveMove) returns (ok: bool)
      requires Valid()
      ensures ok <==> ValidMove(board.Contents(), CurrentPlayer().colour, m)
    {
      var colour := CurrentPlayer().colour;
      if m.pieceToMove.colour != colour {
        return false;
      }
      if m.placementMove {
        var count := board.GetPieceCount();
        if count < 2 {
          return true;
        }
        ok := IsValidPlacePosition(board, colour, m.nextPosition);
        return;
      }
      var queen := board.GetQueenOfPlayer(colour);
      ok := queen.Some?;
    }

    /** `getPlacementMoves`. */
    method GetPlacementMoves(player: HivePlayer) returns (r: Result<seq<HiveMove>>)
      requires Valid()
      ensures r.Err? ==> r == Err(NullPointer) && PieceCount(board.Contents()) >= 2
      ensures r.Ok? ==> exists positions ::
        OfferedPositions(board.Contents(), player.colour, positions)
        && r.value == PlacementMoves(board.Contents(), player.colour, player.tiles, positions)
    {
      var b := board.Contents();
      var colour := player.colour;
      var found := GeneratePlacementPositions(board, colour);
      SearchOffers(b, colour, found);
      if found.Err? {
        return Err(found.error);
      }
      var positions := found.value;
      var moves := PlacementsFor(player, positions);
      return Ok(moves);
    }

    /** The part of `getPlacementMoves` after the positions are known: only
      the queen when the player has three tiles down and no queen, else every
      type still in hand. */
    method PlacementsFor(player: HivePlayer, positions: seq<Hex>) returns (moves: seq<HiveMove>)
      requires Valid()
      ensures moves == PlacementMoves(board.Contents(), player.colour, player.tiles, positions)
    {
      var b := board.Contents();
      var colour := player.colour;
      var pieces := board.GetAllPiecesOfPlayer(colour);
      OwnTilesListed(b, colour, pieces);
      var queen := board.GetQueenOfPlayer(colour);
      if |pieces| >= 3 && queen.None? {
        moves := PlacementsAt(QueenBee, positions, colour);
        assert QueenForced(b, colour);
        return;
      }
      assert !QueenForced(b, colour) by {
        if queen.Some? {
          assert queen.value in Tiles(b) && queen.value.tileType == QueenBee && queen.value.colour == colour;
        }
      }
      moves := PlacementsByType(player, positions, colour);
    }

    /** The stream filter of `getAvailableMoves`: the moves that pass
      validation, in order. */
    method KeepValid(ms: seq<HiveMove>) returns (kept: seq<HiveMove>)
      requires Valid()
      ensures forall m :: m in kept <==> m in ms && ValidMove(board.Contents(), CurrentPlayer().colour, m)
    {
      kept := [];
      var j := 0;
      while j < |ms|
        invariant 0 <= j <= |ms|
        invariant forall m :: m in kept <==> m in ms[..j] && ValidMove(board.Contents(), CurrentPlayer().colour, m)
      {
        var ok := ValidateHiveMove(ms[j]);
        assert ms[..j + 1] == ms[..j] + [ms[j]];
        if ok {
          kept := kept + [ms[j]];
        }
        j := j + 1;
      }
      assert ms[..|ms|] == ms;
    }

    /** The piece loop of `getAvailableMoves`: each listed piece's moves,
      filtered by validation. */
    method CollectPieceMoves(colour: Colour, pieces: seq<HiveTile>) returns (r: Result<seq<HiveMove>>)
      requires Valid()
      requires forall t :: t in pieces ==> t in Tiles(board.Contents()) && t.colour == colour
      requires forall t :: t in pieces ==> DrawsFor(board.Contents(), t)
      ensures r.Err? ==> r.error == NullPointer
      ensures r.Ok? ==> forall m :: m in r.value ==> OfferedPieceMove(board.Contents(), colour, CurrentPlayer().colour, m)
      ensures r.Ok? ==> forall t :: t in pieces ==> Covered(board.Contents(), CurrentPlayer().colour, t, r.value)
    {
      var b := board.Contents();
      var mover := CurrentPlayer().colour;
      var moves := [];
      var i := 0;
      while i < |pieces|
        invariant 0 <= i <= |pieces|
        invariant forall m :: m in moves ==> OfferedPieceMove(b, colour, mover, m)
        invariant forall k :: 0 <= k < i ==> Covered(b, mover, pieces[k], moves)
      {
        var piece := pieces[i];
        assert DrawsFor(b, piece);
        var generated := GeneratePieceMoves(board, piece);
        if generated.Err? {
          return Err(generated.error);
        }
        assert PieceOffers(b, piece, generated.value);
        var kept := KeepValid(generated.value);
        forall m | m in kept
          ensures OfferedPieceMove(b, colour, mover, m)
        {
          assert piece in Tiles(b) && m in generated.value;
        }
        forall k | 0 <= k < i
          ensures Covered(b, mover, pieces[k], moves + kept)
        {
          CoveredGrows(b, mover, pieces[k], moves, kept);
        }
        assert forall m :: m in generated.value && ValidMove(b, mover, m) ==> m in moves + kept;
        moves := moves + kept;
        i := i + 1;
      }
      return Ok(moves);
    }

    /** `getAvailableMoves`: the placement moves, then the valid moves of each
      of the player's pieces, shuffled. */
    method GetAvailableMoves(player: HivePlayer) returns (r: Result<seq<HiveMove>>)
      requires Valid()
      requires forall t :: t in Tiles(board.Contents()) && t.colour == player.colour ==> DrawsFor(board.Contents(), t)
      ensures r.Err? ==> r.error == NullPointer
      ensures r.Ok? ==> Offers(board.Contents(), player.colour, CurrentPlayer().colour, player.tiles, r.value)
    {
      var b := board.Contents();
      var placements := GetPlacementMoves(player);
      if placements.Err? {
        return Err(placements.error);
      }
      ghost var positions :| OfferedPositions(b, player.colour, positions)
        && placements.value == PlacementMoves(b, player.colour, player.tiles, positions);
      var pieces := board.GetAllPiecesOfPlayer(player.colour);
      PiecesListed(b, player.colour, pieces);
      var pieceMoves := CollectPieceMoves(player.colour, pieces);
      if pieceMoves.Err? {
        return Err(pieceMoves.error);
      }
      var moves := placements.value + pieceMoves.value;
      assert multiset(moves) == multiset(moves);
      var shuffled :| multiset(shuffled) == multiset(moves);
      OffersFrom(b, player.colour, CurrentPlayer().colour, player.tiles, positions, pieceMoves.value, pieces, shuffled);
      return Ok(shuffled);
    }

    /** `makeMove` and `processHiveMove`: an invalid move throws; otherwise a
      new game one turn on, on a changed copy of the board. A placement gives
      the mover a new player holding one tile of the type fewer. */
    method MakeMove(m: HiveMove) returns (r: Result<HiveGame>)
      requires Valid()
      ensures unchanged(this, board.store)
      ensures r.Err? <==>
        || !ValidMove(board.Contents(), CurrentPlayer().colour, m)
        || (m.placementMove && m.pieceToMove.tileType !in CurrentPlayer().tiles)
        || Played(board.Contents(), m).Err?
      ensures r.Ok? ==> fresh(r.value) && fresh(r.value.board.store) && r.value.Valid()
      ensures r.Ok? ==> Played(board.Contents(), m) == Ok(r.value.board.Contents()) && r.value.turn == turn + 1
      ensures r.Ok? && !m.placementMove ==> r.value.player1 == player1 && r.value.player2 == player2
      ensures r.Ok? && m.placementMove && player1.colour == CurrentPlayer().colour ==>
        fresh(r.value.player1) && HandTaken(CurrentPlayer(), r.value.player1, m.pieceToMove.tileType) && r.value.player2 == player2
      ensures r.Ok? && m.placementMove && player1.colour != CurrentPlayer().colour ==>
        r.value.player1 == player1 && fresh(r.value.player2) && HandTaken(CurrentPlayer(), r.value.player2, m.pieceToMove.tileType)
    {
      var ok := ValidateHiveMove(m);
      if !ok {
        return Err(IllegalArgument);
      }
      var b := board.Contents();
      var copy := new HiveBoardState.Copy(board);
      if m.placementMove {
        var mover := CurrentPlayer();
        var colour := mover.colour;
        var hand := mover.RemoveTile(m.pieceToMove.tileType);
        if hand.Err? {
          return Err(hand.error);
        }
        var player := new HivePlayer.WithHand(hand.value, colour, Some(SimpleName(mover.isAI)), mover.isAI);
        copy.PlacePiece(m.nextPosition, m.pieceToMove);
        PlacementEffect(b, m);
        var game;
        if player1.colour == colour {
          game := new HiveGame.WithTurn(player, player2, copy, turn + 1);
        } else {
          game := new HiveGame.WithTurn(player1, player, copy, turn + 1);
        }
        return Ok(game);
      }
      var moved := Moved(m);
      var removed := copy.RemovePieceAt(m.pieceToMove.hex);
      MovementEffect(b, m);
      if removed.Failed? {
        return Err(removed.error);
      }
      copy.PlacePiece(m.nextPosition, moved);
      var game := new HiveGame.WithTurn(player1, player2, copy, turn + 1);
      return Ok(game);
    }

    /** `isTerminalState`: false below seven tiles, and otherwise whether
      some queen has all six neighbours occupied. */
    method IsTerminalState() returns (r: bool)
      requires Valid()
      ensures r <==> PieceCount(board.Contents()) >= 7 && SomeQueenSurrounded(board.Contents())
    {
      var b := board.Contents();
      var count := board.GetPieceCount();
      if count < 7 {
        return false;
      }
      var queens := board.GetQueens();
      var i := 0;
      while i < |queens|
        invariant 0 <= i <= |queens|
        invariant forall k :: 0 <= k < i ==> !Surrounded(b, queens[k].hex)
      {
        var n := CountNeighbours(board, queens[i].hex);
        SurroundedCount(b, queens[i].hex);
        if n == 6 {
          assert multiset(queens)[queens[i]] > 0;
          return true;
        }
        i := i + 1;
      }
      forall q | q in Tiles(b) && q.tileType == QueenBee
        ensures !Surrounded(b, q.hex)
      {
        assert multiset(queens)[q] > 0;
      }
      return false;
    }

    /** `getGameResult`: a null player throws; otherwise the verdict over the
      queens in the order the board lists them. */
    method GetGameResult(player: HivePlayer?) returns (r: Result<Option<GameResult>>)
      requires Valid()
      ensures player == null ==> r == Err(IllegalArgument)
      ensures player != null ==> r.Ok? && exists queens ::
        QueensOf(board.Contents(), queens) && r.value == Verdict(board.Contents(), player.colour, queens)
    {
      if player == null {
        return Err(IllegalArgument);
      }
      var b := board.Contents();
      var result := None;
      var queens := board.GetQueens();
      var i := 0;
      while i < |queens|
        invariant 0 <= i <= |queens|
        invariant result == Verdict(b, player.colour, queens[..i])
      {
        var queen := queens[i];
        assert queens[..i + 1][..i] == queens[..i];
        var n := CountNeighbours(board, queen.hex);
        SurroundedCount(b, queen.hex);
        if n == 6 {
          if result.None? {
            result := Some(if queen.colour == player.colour then Loss else Win);
          } else {
            result := Some(Draw);
          }
        }
        i := i + 1;
      }
      assert queens[..|queens|] == queens;
      assert QueensOf(b, queens);
      assert result == Verdict(b, player.colour, queens);
      assert QueensOf(board.Contents(), queens) && result == Verdict(board.Contents(), player.colour, queens);
      return Ok(result);
    }

    /** `handleNoAvailableMoves`: pass the turn, then null when the new player
      to move has no moves, and this game otherwise. */
    method HandleNoAvailableMoves() returns (r: Result<Option<HiveGame>>, ghost moves: seq<HiveMove>)
      requires Valid()
      requires forall t :: t in Tiles(board.Contents()) && t.colour == CurrentOpponent().colour ==> DrawsFor(board.Contents(), t)
      modifies this
      ensures turn == old(turn) + 1
      ensures r.Err? ==> r.error == NullPointer
      ensures r.Ok? ==> Offers(board.Contents(), CurrentPlayer().colour, CurrentPlayer().colour, CurrentPlayer().tiles, moves)
      ensures r.Ok? ==> (r.value.None? <==> moves == []) && (r.value.Some? ==> r.value.value == this)
    {
      NextTurn();
      var available := GetAvailableMoves(CurrentPlayer());
      if available.Err? {
        return Err(available.error), [];
      }
      moves := available.value;
      if available.value == [] {
        return Ok(None), moves;
      }
      return Ok(Some(this)), moves;
    }
  }
}
