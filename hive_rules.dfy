/** HiveRuleEngine.java: the moves each piece may make, where a new tile may
    be placed, and the one-hive rule checked by breadth-first search. The
    rule engine only reads the board; its checks see the board's stacks. */
module HiveRuleEngine {
  import opened Common
  import opened HexGrid
  import opened HiveTypes
  import opened HiveBoard
  import opened HiveReach

  /* ----- Sliding between two hexes ----- */

  /** `isFreeToMove`: a step to an adjacent hex is blocked when both hexes
      flanking the step are occupied; hexes further apart are not checked.
      The flanks are the neighbours in directions (i + 1 + 6) % 6 and
      (i - 1 + 6) % 6 of the step's direction index i (FlankIndices). */
  function IsFreeToMove(b: Board, current: Hex, next: Hex): bool
  {
    if HexDistance(current, next) > 1 then true
    else
      var i := DirectionIndex(HexSubtract(next, current));
      var leftBlocked := HexNeighbour(current, LeftOf(i)) in b;
      var rightBlocked := HexNeighbour(current, RightOf(i)) in b;
      !(leftBlocked && rightBlocked)
  }

  /** `(i + 1 + 6) % 6` for a direction index -1 <= i < 6. */
  function LeftOf(i: int): int
  {
    if i == 5 then 0 else i + 1
  }

  /** `(i - 1 + 6) % 6` for a direction index -1 <= i < 6. */
  function RightOf(i: int): int
  {
    if i == -1 then 4 else if i == 0 then 5 else i - 1
  }

  lemma FlankIndices(i: int)
    requires -1 <= i < 6
    ensures LeftOf(i) == (i + 1 + 6) % 6 && RightOf(i) == (i - 1 + 6) % 6
  {
  }

  /** The direction opposite d. */
  function OppositeDirection(d: int): int
  {
    if d < 3 then d + 3 else d - 3
  }

  lemma DirectionOfNeighbour(h: Hex, d: int)
    requires 0 <= d < 6
    ensures DirectionIndex(HexSubtract(HexNeighbour(h, d), h)) == d
  {
    var v := HexSubtract(HexNeighbour(h, d), h);
    assert v == DIRECTIONS[d];
  }

  /** The step from h in direction d is free exactly when the two hexes
      beside it, in the directions either side of d, are not both occupied. */
  lemma FreeToMoveFlanks(b: Board, h: Hex, d: int)
    requires 0 <= d < 6
    ensures IsFreeToMove(b, h, HexNeighbour(h, d)) <==>
      !(HexNeighbour(h, LeftOf(d)) in b && HexNeighbour(h, RightOf(d)) in b)
  {
    DirectionOfNeighbour(h, d);
    NeighbourIsAdjacent(h, d);
  }

  /** Stepping back from the neighbour in direction d returns to h, and the
      hexes flanking the step back are those flanking the step. */
  lemma StepBack(h: Hex, d: int)
    requires 0 <= d < 6
    ensures HexNeighbour(HexNeighbour(h, d), OppositeDirection(d)) == h
    ensures HexNeighbour(HexNeighbour(h, d), LeftOf(OppositeDirection(d))) == HexNeighbour(h, RightOf(d))
    ensures HexNeighbour(HexNeighbour(h, d), RightOf(OppositeDirection(d))) == HexNeighbour(h, LeftOf(d))
  {
  }

  /** The two hexes flanking a step are the two flanking the step back, so
      `queenMoves` and `beetleMoves`, which test the step from the destination
      back to the piece, test the same thing as the step they offer. */
  lemma FreeToMoveSymmetric(b: Board, h: Hex, d: int)
    requires 0 <= d < 6
    ensures IsFreeToMove(b, h, HexNeighbour(h, d)) == IsFreeToMove(b, HexNeighbour(h, d), h)
  {
    StepBack(h, d);
    FreeToMoveFlanks(b, h, d);
    FreeToMoveFlanks(b, HexNeighbour(h, d), OppositeDirection(d));
  }

  /* ----- Grasshopper ----- */

  /** The coordinate that grows by one with each step in direction d. */
  function Advance(h: Hex, d: int): int
    requires 0 <= d < 6
  {
    if d < 2 then h.q else if d < 4 then h.s else h.r
  }

  /** The occupied hexes beyond h in direction d. */
  function Ahead(b: Board, h: Hex, d: int): set<Hex>
    requires 0 <= d < 6
  {
    set p | p in b && Advance(p, d) > Advance(h, d)
  }

  /** `hopDirection`: step from h in direction d until an empty hex. */
  function HopDirection(b: Board, h: Hex, d: int): (landing: Hex)
    requires 0 <= d < 6
    ensures landing !in b
    decreases Ahead(b, h, d)
  {
    var next := HexNeighbour(h, d);
    if next !in b then next
    else
      assert next in Ahead(b, h, d) && next !in Ahead(b, next, d);
      HopDirection(b, next, d)
  }

  /** The hex k steps from h in direction d. */
  function Ray(h: Hex, d: int, k: int): Hex
    requires 0 <= d < 6
  {
    HexAdd(h, HexMultiply(HexDirection(d), k))
  }

  lemma RayStep(h: Hex, d: int, k: int)
    requires 0 <= d < 6
    ensures Ray(HexNeighbour(h, d), d, k) == Ray(h, d, k + 1)
  {
    var v := HexDirection(d);
    assert v.q * (k + 1) == v.q * k + v.q;
    assert v.r * (k + 1) == v.r * k + v.r;
    assert v.s * (k + 1) == v.s * k + v.s;
  }

  /** The hop lands on the first empty hex of the ray: every hex it passes
      over is occupied. */
  lemma {:induction false} HopLandsOnFirstGap(b: Board, h: Hex, d: int)
    requires 0 <= d < 6
    ensures exists k :: k >= 1 && HopDirection(b, h, d) == Ray(h, d, k) &&
                        (forall j :: 1 <= j < k ==> Ray(h, d, j) in b)
    decreases Ahead(b, h, d)
  {
    var next := HexNeighbour(h, d);
    RayStep(h, d, 0);
    assert Ray(h, d, 1) == next by {
      assert Ray(next, d, 0) == next;
    }
    if next in b {
      assert next in Ahead(b, h, d) && next !in Ahead(b, next, d);
      HopLandsOnFirstGap(b, next, d);
      var k :| k >= 1 && HopDirection(b, next, d) == Ray(next, d, k) &&
        (forall j :: 1 <= j < k ==> Ray(next, d, j) in b);
      RayStep(h, d, k);
      forall j | 1 <= j < k + 1
        ensures Ray(h, d, j) in b
      {
        if j > 1 {
          RayStep(h, d, j - 1);
        }
      }
    }
  }

  /** The directions below n whose neighbour of h is occupied, in order. */
  function OccupiedDirections(b: Board, h: Hex, n: nat): (ds: seq<int>)
    requires n <= 6
    ensures forall k :: 0 <= k < |ds| ==> 0 <= ds[k] < n
  {
    if n == 0 then []
    else OccupiedDirections(b, h, n - 1) + (if HexNeighbour(h, n - 1) in b then [n - 1] else [])
  }

  lemma {:induction false} OccupiedDirectionsMembers(b: Board, h: Hex, n: nat)
    requires n <= 6
    ensures forall d :: d in OccupiedDirections(b, h, n) <==> 0 <= d < n && HexNeighbour(h, d) in b
    ensures forall k, l :: 0 <= k < l < |OccupiedDirections(b, h, n)| ==>
      OccupiedDirections(b, h, n)[k] < OccupiedDirections(b, h, n)[l]
  {
    if n > 0 {
      OccupiedDirectionsMembers(b, h, n - 1);
    }
  }

  /** The hop in each occupied direction, in direction order. */
  function HopMoves(b: Board, tile: HiveTile): (moves: seq<HiveMove>)
  {
    var ds := OccupiedDirections(b, tile.hex, 6);
    seq(|ds|, k requires 0 <= k < |ds| =>
      HiveMove(tile, HopDirection(b, HexNeighbour(tile.hex, ds[k]), ds[k]), false))
  }

  /** `grassHopperMoves`: for each direction in turn whose neighbour is
      occupied, jump over the line of pieces it starts. */
  method GrassHopperMoves(board: HiveBoardState, tile: HiveTile) returns (moves: seq<HiveMove>)
    ensures moves == HopMoves(board.Contents(), tile)
  {
    var b := board.Contents();
    moves := [];
    var i := 0;
    while i < 6
      invariant 0 <= i <= 6
      invariant |moves| == |OccupiedDirections(b, tile.hex, i)|
      invariant forall k :: 0 <= k < |moves| ==>
        OccupiedDirections(b, tile.hex, i)[k] in OccupiedDirections(b, tile.hex, i) &&
        moves[k] == HiveMove(tile, HopDirection(b, HexNeighbour(tile.hex, OccupiedDirections(b, tile.hex, i)[k]),
          OccupiedDirections(b, tile.hex, i)[k]), false)
    {
      OccupiedDirectionsMembers(b, tile.hex, i);
      OccupiedDirectionsMembers(b, tile.hex, i + 1);
      if board.HasTileAtHex(HexNeighbour(tile.hex, i)) {
        moves := moves + [HiveMove(tile, HopDirection(b, HexNeighbour(tile.hex, i), i), false)];
      }
      i := i + 1;
    }
  }

  /** A grasshopper offers one move per occupied neighbouring direction; each
      keeps the grasshopper, is not a placement, and lands on the first
      empty hex past a line of at least one piece. */
  lemma HopMovesMeaning(b: Board, tile: HiveTile)
    ensures |HopMoves(b, tile)| == |OccupiedDirections(b, tile.hex, 6)|
    ensures forall m :: m in HopMoves(b, tile) ==>
      m.pieceToMove == tile && !m.placementMove && m.nextPosition !in b &&
      exists d, k :: 0 <= d < 6 && k >= 2 && m.nextPosition == Ray(tile.hex, d, k) &&
                     (forall j :: 1 <= j < k ==> Ray(tile.hex, d, j) in b)
  {
    var ds := OccupiedDirections(b, tile.hex, 6);
    OccupiedDirectionsMembers(b, tile.hex, 6);
    forall m | m in HopMoves(b, tile)
      ensures m.pieceToMove == tile && !m.placementMove && m.nextPosition !in b
      ensures exists d, k :: 0 <= d < 6 && k >= 2 && m.nextPosition == Ray(tile.hex, d, k) &&
                             (forall j :: 1 <= j < k ==> Ray(tile.hex, d, j) in b)
    {
      var idx :| 0 <= idx < |ds| && m == HopMoves(b, tile)[idx];
      var d := ds[idx];
      assert d in ds;
      HopFrom(b, tile.hex, d);
    }
  }

  /** The hop from h over its occupied neighbour in direction d lands on an
      empty hex at least two steps along d, passing only occupied hexes. */
  lemma HopFrom(b: Board, h: Hex, d: int)
    requires 0 <= d < 6 && HexNeighbour(h, d) in b
    ensures HopDirection(b, HexNeighbour(h, d), d) !in b
    ensures exists k :: k >= 2 && HopDirection(b, HexNeighbour(h, d), d) == Ray(h, d, k) &&
                        (forall j :: 1 <= j < k ==> Ray(h, d, j) in b)
  {
    var n := HexNeighbour(h, d);
    HopLandsOnFirstGap(b, n, d);
    var k :| k >= 1 && HopDirection(b, n, d) == Ray(n, d, k) && forall j :: 1 <= j < k ==> Ray(n, d, j) in b;
    RayStep(h, d, k);
    RayStep(h, d, 0);
    assert Ray(h, d, 1) == n by {
      assert Ray(n, d, 0) == n;
    }
    forall j | 1 <= j < k + 1
      ensures Ray(h, d, j) in b
    {
      if j > 1 {
        RayStep(h, d, j - 1);
      }
    }
  }


  /* ----- Single steps: queen and beetle ----- */

  /** The neighbours of h below direction n that keep accepts, in order. */
  ghost function Targets(h: Hex, n: nat, keep: Hex -> bool): seq<Hex>
    requires n <= 6
  {
    if n == 0 then []
    else Targets(h, n - 1, keep) + (if keep(HexNeighbour(h, n - 1)) then [HexNeighbour(h, n - 1)] else [])
  }

  lemma {:induction false} TargetsBelow(h: Hex, n: nat, keep: Hex -> bool, x: Hex)
    requires n <= 6
    ensures x in Targets(h, n, keep) <==> keep(x) && exists d :: 0 <= d < n && x == HexNeighbour(h, d)
  {
    if n > 0 {
      TargetsBelow(h, n - 1, keep, x);
    }
  }

  lemma TargetsNext(h: Hex, i: nat, keep: Hex -> bool)
    requires i < 6
    ensures keep(HexNeighbour(h, i)) ==> Targets(h, i + 1, keep) == Targets(h, i, keep) + [HexNeighbour(h, i)]
    ensures !keep(HexNeighbour(h, i)) ==> Targets(h, i + 1, keep) == Targets(h, i, keep)
  {
    assert Targets(h, i, keep) + [] == Targets(h, i, keep);
  }

  /** The targets are exactly the accepted hexes adjacent to h. */
  lemma TargetsMembers(h: Hex, keep: Hex -> bool, x: Hex)
    ensures x in Targets(h, 6, keep) <==> Adjacent(h, x) && keep(x)
  {
    TargetsBelow(h, 6, keep, x);
    if Adjacent(h, x) {
      AdjacentIsNeighbour(h, x);
    }
    if x in Targets(h, 6, keep) {
      var d :| 0 <= d < 6 && x == HexNeighbour(h, d);
      NeighbourIsAdjacent(h, d);
    }
  }

  /** A move of tile to each target, in order. */
  function StepMoves(tile: HiveTile, targets: seq<Hex>): (moves: seq<HiveMove>)
    ensures |moves| == |targets|
  {
    if targets == [] then []
    else StepMoves(tile, targets[..|targets| - 1]) + [HiveMove(tile, targets[|targets| - 1], false)]
  }

  lemma {:induction false} StepMovesMembers(tile: HiveTile, targets: seq<Hex>, m: HiveMove)
    ensures m in StepMoves(tile, targets) <==> !m.placementMove && m.pieceToMove == tile && m.nextPosition in targets
  {
    if targets != [] {
      var init := targets[..|targets| - 1];
      StepMovesMembers(tile, init, m);
      assert targets == init + [targets[|targets| - 1]];
    }
  }

  lemma StepMovesAppend(tile: HiveTile, targets: seq<Hex>, x: Hex)
    ensures StepMoves(tile, targets + [x]) == StepMoves(tile, targets) + [HiveMove(tile, x, false)]
  {
    assert (targets + [x])[..|targets|] == targets;
  }

  /** Some neighbour of n holds a stack whose top is not the moving tile. */
  ghost predicate TouchesOther(b: Board, tile: HiveTile, n: Hex)
  {
    exists k :: 0 <= k < 6 && HexNeighbour(n, k) in b && Top(b, HexNeighbour(n, k)) != Some(tile)
  }

  /** What `queenMoves` asks of a neighbour n of the queen: it is empty, the
      slide into it is free, and it touches a piece other than the queen. */
  ghost predicate QueenStep(b: Board, tile: HiveTile, n: Hex)
  {
    n !in b && IsFreeToMove(b, n, tile.hex) && TouchesOther(b, tile, n)
  }

  ghost function QueenKeeps(b: Board, tile: HiveTile): Hex -> bool
  {
    (n: Hex) => QueenStep(b, tile, n)
  }

  /** `queenMoves`: one step to each neighbour the queen can slide to. */
  method QueenMoves(board: HiveBoardState, tile: HiveTile) returns (moves: seq<HiveMove>)
    requires board.Valid()
    ensures moves == StepMoves(tile, Targets(tile.hex, 6, QueenKeeps(board.Contents(), tile)))
  {
    var b := board.Contents();
    ghost var keep := QueenKeeps(b, tile);
    var neighbours := Neighbours(tile.hex);
    moves := [];
    var i := 0;
    while i < 6
      invariant 0 <= i <= 6
      invariant moves == StepMoves(tile, Targets(tile.hex, i, keep))
    {
      var n := neighbours[i];
      ghost var before := Targets(tile.hex, i, keep);
      TargetsNext(tile.hex, i, keep);
      assert keep(n) == QueenStep(b, tile, n);
      if !board.HasTileAtHex(n) && IsFreeToMove(b, n, tile.hex) {
        var hasNeighbours := false;
        var j := 0;
        while j < 6
          invariant 0 <= j <= 6
          invariant hasNeighbours <==>
            exists k :: 0 <= k < j && HexNeighbour(n, k) in b && Top(b, HexNeighbour(n, k)) != Some(tile)
        {
          var next := Neighbours(n)[j];
          if !hasNeighbours {
            if board.HasTileAtHex(next) && board.GetPieceAt(next) == Some(tile) {
            } else if board.HasPieceAt(next) {
              hasNeighbours := true;
            }
          }
          j := j + 1;
        }
        assert hasNeighbours <==> TouchesOther(b, tile, n);
        if hasNeighbours {
          StepMovesAppend(tile, before, n);
          moves := moves + [HiveMove(tile, n, false)];
        }
      }
      i := i + 1;
    }
  }

  /** The queen moves one hex, onto an empty hex it can slide into, that
      keeps it touching some other piece. */
  lemma QueenMovesMeaning(b: Board, tile: HiveTile, m: HiveMove)
    ensures m in StepMoves(tile, Targets(tile.hex, 6, QueenKeeps(b, tile))) <==>
      && m == HiveMove(tile, m.nextPosition, false)
      && Adjacent(tile.hex, m.nextPosition)
      && m.nextPosition !in b
      && IsFreeToMove(b, m.nextPosition, tile.hex)
      && TouchesOther(b, tile, m.nextPosition)
  {
    StepMovesMembers(tile, Targets(tile.hex, 6, QueenKeeps(b, tile)), m);
    TargetsMembers(tile.hex, QueenKeeps(b, tile), m.nextPosition);
  }

  /** `isOccupiedUnconnectedPosition`: true for an occupied or already
      visited hex; otherwise the hex is marked visited, and the answer is
      whether it lacks any occupied neighbour outside the visited set. */
  method IsOccupiedUnconnectedPosition(board: HiveBoardState, hex: Hex, visited: set<Hex>)
    returns (r: bool, visitedAfter: set<Hex>)
    ensures hex in board.Contents() || hex in visited ==> r && visitedAfter == visited
    ensures hex !in board.Contents() && hex !in visited ==>
      && visitedAfter == visited + {hex}
      && (r <==> forall k :: 0 <= k < 6 ==> HexNeighbour(hex, k) in visitedAfter || HexNeighbour(hex, k) !in board.Contents())
  {
    if board.HasTileAtHex(hex) {
      return true, visited;
    }
    if hex in visited {
      return true, visited;
    }
    visitedAfter := visited + {hex};
    var neighbourFound := false;
    var neighbours := Neighbours(hex);
    var i := 0;
    while i < 6
      invariant 0 <= i <= 6
      invariant neighbourFound <==>
        exists k :: 0 <= k < i && HexNeighbour(hex, k) !in visitedAfter && HexNeighbour(hex, k) in board.Contents()
    {
      var n := neighbours[i];
      if n !in visitedAfter && board.HasTileAtHex(n) {
        neighbourFound := true;
      }
      i := i + 1;
    }
    r := !neighbourFound;
  }

  /** What `beetleMoves` asks of a neighbour n of a beetle on the ground: the
      slide is free, and n is occupied (the beetle climbs) or n touches an
      occupied hex other than the beetle's own. */
  ghost predicate BeetleStep(b: Board, tile: HiveTile, n: Hex)
  {
    && IsFreeToMove(b, n, tile.hex)
    && (|| n in b
        || (n != tile.hex && exists k :: 0 <= k < 6 && HexNeighbour(n, k) !in {tile.hex, n} && HexNeighbour(n, k) in b))
  }

  ghost function BeetleKeeps(b: Board, tile: HiveTile): Hex -> bool
  {
    (n: Hex) => BeetleStep(b, tile, n)
  }

  /** `beetleMoves`: a beetle on top of a stack may step to any neighbour;
      one on the ground to each neighbour `BeetleStep` accepts. A beetle
      whose hex holds no stack makes the size test throw. */
  method BeetleMoves(board: HiveBoardState, tile: HiveTile) returns (r: Result<seq<HiveMove>>)
    requires board.Valid()
    ensures tile.hex !in board.Contents() ==> r == Err(NullPointer)
    ensures tile.hex in board.Contents() && |board.Contents()[tile.hex]| > 1 ==>
      r == Ok(StepMoves(tile, Neighbours(tile.hex)))
    ensures tile.hex in board.Contents() && |board.Contents()[tile.hex]| <= 1 ==>
      r == Ok(StepMoves(tile, Targets(tile.hex, 6, BeetleKeeps(board.Contents(), tile))))
  {
    var b := board.Contents();
    var neighbours := Neighbours(tile.hex);
    var stack := board.store.GetPieceAt(tile.hex);
    if stack.None? {
      return Err(NullPointer);
    }
    if |stack.value| > 1 {
      var all := ClimbingMoves(tile);
      return Ok(all);
    }
    ghost var keep := BeetleKeeps(b, tile);
    var moves := [];
    var i := 0;
    while i < 6
      invariant 0 <= i <= 6
      invariant moves == StepMoves(tile, Targets(tile.hex, i, keep))
    {
      var n := neighbours[i];
      ghost var before := Targets(tile.hex, i, keep);
      TargetsNext(tile.hex, i, keep);
      assert keep(n) == BeetleStep(b, tile, n);
      if IsFreeToMove(b, n, tile.hex) {
        var unconnected, _ := IsOccupiedUnconnectedPosition(board, n, {tile.hex});
        assert !unconnected || n in b <==> BeetleStep(b, tile, n);
        if !unconnected || board.HasPieceAt(n) {
          StepMovesAppend(tile, before, n);
          moves := moves + [HiveMove(tile, n, false)];
        }
      }
      i := i + 1;
    }
    return Ok(moves);
  }

  /** The first branch of `beetleMoves`: a step to every neighbour. */
  method ClimbingMoves(tile: HiveTile) returns (moves: seq<HiveMove>)
    ensures moves == StepMoves(tile, Neighbours(tile.hex))
  {
    var neighbours := Neighbours(tile.hex);
    moves := [];
    var i := 0;
    while i < 6
      invariant 0 <= i <= 6
      invariant moves == StepMoves(tile, neighbours[..i])
    {
      assert neighbours[..i + 1] == neighbours[..i] + [neighbours[i]];
      StepMovesAppend(tile, neighbours[..i], neighbours[i]);
      moves := moves + [HiveMove(tile, neighbours[i], false)];
      i := i + 1;
    }
    assert neighbours[..6] == neighbours;
  }

  /** A beetle on the ground moves one hex, sliding freely, onto a piece or
      next to a piece other than itself. */
  lemma BeetleMovesMeaning(b: Board, tile: HiveTile, m: HiveMove)
    ensures m in StepMoves(tile, Targets(tile.hex, 6, BeetleKeeps(b, tile))) <==>
      m == HiveMove(tile, m.nextPosition, false) && Adjacent(tile.hex, m.nextPosition) && BeetleStep(b, tile, m.nextPosition)
  {
    StepMovesMembers(tile, Targets(tile.hex, 6, BeetleKeeps(b, tile)), m);
    TargetsMembers(tile.hex, BeetleKeeps(b, tile), m.nextPosition);
  }

  /* ----- Placement ----- */

  /** Every occupied neighbour of hex shows the placing colour on top. */
  ghost predicate ValidPlacement(b: Board, colour: Colour, hex: Hex)
    requires WellStacked(b)
  {
    forall k :: 0 <= k < 6 && HexNeighbour(hex, k) in b ==> TopOf(b, HexNeighbour(hex, k)).colour == colour
  }

  /** `isValidPlacePosition`: no neighbour of the hex is topped by a tile of
      the other colour. */
  method IsValidPlacePosition(board: HiveBoardState, colour: Colour, hex: Hex) returns (r: bool)
    requires board.Valid()
    ensures r <==> ValidPlacement(board.Contents(), colour, hex)
  {
    var b := board.Contents();
    var neighbours := Neighbours(hex);
    var i := 0;
    while i < 6
      invariant 0 <= i <= 6
      invariant forall k :: 0 <= k < i && HexNeighbour(hex, k) in b ==> TopOf(b, HexNeighbour(hex, k)).colour == colour
    {
      var n := neighbours[i];
      if board.HasPieceAt(n) {
        var top := board.GetPieceAt(n);
        if top.value.colour != colour {
          return false;
        }
      }
      i := i + 1;
    }
    return true;
  }

  /** An empty hex `generatePlacementPositions` offers from start: a valid
      placement next to a tile of the colour that the search reaches. */
  ghost predicate PlacementTarget(b: Board, colour: Colour, start: Hex, n: Hex)
    requires WellStacked(b)
  {
    && n !in b
    && ValidPlacement(b, colour, n)
    && exists q :: q in b && Reach(b, start, None, q) && TopOf(b, q).colour == colour && Adjacent(q, n)
  }

  /** An empty hex next to a tile of the colour with no neighbour of the
      other colour: where the rules of Hive allow a new tile. */
  ghost predicate FreePlacement(b: Board, colour: Colour, n: Hex)
    requires WellStacked(b)
  {
    && n !in b
    && ValidPlacement(b, colour, n)
    && exists q :: q in b && TopOf(b, q).colour == colour && Adjacent(q, n)
  }

  /** The outcome of the search from start: the start hex must hold a tile,
      or reading its colour throws; then the hexes offered are exactly the
      placement targets, possibly some more than once. */
  ghost predicate PlacementsFrom(b: Board, colour: Colour, start: Hex, r: Result<seq<Hex>>)
    requires WellStacked(b)
  {
    if start !in b then r == Err(NullPointer)
    else r.Ok? && forall n :: n in r.value <==> PlacementTarget(b, colour, start, n)
  }

  /** Every two occupied hexes are joined by a walk over occupied hexes. */
  ghost predicate HiveConnected(b: Board)
  {
    forall s, p :: s in b && p in b ==> Reach(b, s, None, p)
  }

  /** `generatePlacementPositions`: the origin on an empty board, its six
      neighbours while fewer than two tiles are down, and otherwise the valid
      empty hexes next to the colour's tiles, found by a breadth-first search
      over occupied hexes from the hex named by a randomly drawn top tile. */
  method GeneratePlacementPositions(board: HiveBoardState, colour: Colour) returns (r: Result<seq<Hex>>)
    requires board.Valid()
    ensures board.Contents() == map[] ==> r == Ok([ORIGIN])
    ensures board.Contents() != map[] && PieceCount(board.Contents()) < 2 ==> r == Ok(Neighbours(ORIGIN))
    ensures PieceCount(board.Contents()) >= 2 ==>
      exists p :: p in board.Contents() && PlacementsFrom(board.Contents(), colour, TopOf(board.Contents(), p).hex, r)
    ensures PieceCount(board.Contents()) >= 2 && Located(board.Contents()) && HiveConnected(board.Contents()) ==>
      r.Ok? && forall n :: n in r.value <==> FreePlacement(board.Contents(), colour, n)
  {
    var b := board.Contents();
    if board.IsBoardEmpty() {
      return Ok([ORIGIN]);
    }
    var count := board.GetPieceCount();
    if count < 2 {
      return Ok(Neighbours(ORIGIN));
    }
    var p :| p in b;
    r := SearchPlacements(board, colour, TopOf(b, p).hex);
    if Located(b) && HiveConnected(b) {
      ConnectedPlacements(b, colour, p);
    }
  }

  /** The breadth-first search of `generatePlacementPositions` from start. */
  method SearchPlacements(board: HiveBoardState, colour: Colour, start: Hex) returns (r: Result<seq<Hex>>)
    requires board.Valid()
    ensures PlacementsFrom(board.Contents(), colour, start, r)
  {
    var b := board.Contents();
    ghost var u := b.Keys + {start};
    var validPositions: seq<Hex> := [];
    var visited: set<Hex> := {};
    var queue: seq<Hex> := [start];
    ReachStart(b, start, None);
    while queue != []
      invariant (visited == {} && queue == [start]) || (start in visited && start in b)
      invariant PlacementSearch(b, colour, start, visited, queue, validPositions)
      decreases |u - visited|, FirstFresh(queue, visited)
    {
      ghost var queueBefore, visitedBefore, validBefore := queue, visited, validPositions;
      var current := queue[0];
      visited := visited + {current};
      var found, queueAfter, validAfter, ownColour, pushed, added :=
        PollPlacement(board, colour, current, visited, queue[1..], validPositions);
      if !found {
        assert current == start && start !in b;
        return Err(NullPointer);
      }
      queue, validPositions := queueAfter, validAfter;
      PlacementSearchStep(b, colour, start, visitedBefore, queueBefore, validBefore,
                          current, ownColour, pushed, added, visited, queue, validPositions);
      SearchProgress(u, visitedBefore, queueBefore, pushed);
    }
    PlacementSearchDone(b, colour, start, visited, validPositions);
    r := Ok(validPositions);
  }

  /** What the placement search keeps true between polls: everything queued
      or visited is reached from start, the visited hexes have their occupied
      neighbours visited or queued, and the recorded hexes are the placement
      targets next to the visited tiles of the colour. */
  ghost predicate PlacementSearch(b: Board, colour: Colour, start: Hex, visited: set<Hex>, queue: seq<Hex>, valid: seq<Hex>)
    requires WellStacked(b)
  {
    && (forall x :: x in visited ==> x in b && Reach(b, start, None, x))
    && (forall x :: x in queue ==> (x in b || x == start) && Reach(b, start, None, x))
    && (forall x, k :: x in visited && 0 <= k < 6 && HexNeighbour(x, k) in b ==>
          HexNeighbour(x, k) in visited || HexNeighbour(x, k) in queue)
    && (forall n :: n in valid ==> PlacementTarget(b, colour, start, n))
    && (forall x, k :: (x in visited && TopOf(b, x).colour == colour && 0 <= k < 6 &&
          HexNeighbour(x, k) !in b && ValidPlacement(b, colour, HexNeighbour(x, k))) ==>
          HexNeighbour(x, k) in valid)
  }

  /** One poll keeps the search invariant. */
  lemma PlacementSearchStep(b: Board, colour: Colour, start: Hex,
                            visited: set<Hex>, queue: seq<Hex>, valid: seq<Hex>,
                            current: Hex, ownColour: bool, pushed: seq<Hex>, added: seq<Hex>,
                            visitedAfter: set<Hex>, queueAfter: seq<Hex>, validAfter: seq<Hex>)
    requires WellStacked(b) && PlacementSearch(b, colour, start, visited, queue, valid)
    requires queue != [] && current == queue[0] && current in b
    requires ownColour == (TopOf(b, current).colour == colour)
    requires visitedAfter == visited + {current}
    requires queueAfter == queue[1..] + pushed
    requires forall x :: x in pushed ==> x in b && x !in visitedAfter && Adjacent(current, x)
    requires forall k :: 0 <= k < 6 && HexNeighbour(current, k) in b ==>
      HexNeighbour(current, k) in visitedAfter || HexNeighbour(current, k) in queueAfter
    requires validAfter == valid + added
    requires forall n :: n in added ==> ownColour && n !in b && ValidPlacement(b, colour, n) && Adjacent(current, n)
    requires ownColour ==> forall k :: (0 <= k < 6 && HexNeighbour(current, k) !in b &&
      ValidPlacement(b, colour, HexNeighbour(current, k))) ==> HexNeighbour(current, k) in validAfter
    ensures PlacementSearch(b, colour, start, visitedAfter, queueAfter, validAfter)
  {
    assert Reach(b, start, None, current);
    forall x | x in pushed
      ensures Reach(b, start, None, x)
    {
      ReachStep(b, start, None, current, x);
    }
    forall n | n in added
      ensures PlacementTarget(b, colour, start, n)
    {
    }
  }

  /** A poll visits a new hex, or drops an already visited one from the head
      of the queue and appends only unvisited hexes. */
  lemma SearchProgress(u: set<Hex>, visited: set<Hex>, queue: seq<Hex>, pushed: seq<Hex>)
    requires queue != [] && queue[0] in u
    requires forall x :: x in pushed ==> x !in visited + {queue[0]}
    ensures |u - (visited + {queue[0]})| < |u - visited| ||
      (|u - (visited + {queue[0]})| == |u - visited| &&
       FirstFresh(queue[1..] + pushed, visited + {queue[0]}) < FirstFresh(queue, visited))
  {
    var visitedAfter := visited + {queue[0]};
    if queue[0] in visited {
      assert visitedAfter == visited;
      FirstFreshAppend(queue[1..], pushed, visited);
    } else {
      assert u - visited == (u - visitedAfter) + {queue[0]};
    }
  }

  /** One poll of the search in `generatePlacementPositions`: the tile on
      current, whose absence throws NullPointerException, then its neighbours. */
  method PollPlacement(board: HiveBoardState, colour: Colour, current: Hex,
                       visited: set<Hex>, queue: seq<Hex>, valid: seq<Hex>)
    returns (found: bool, queueAfter: seq<Hex>, validAfter: seq<Hex>,
             ghost ownColour: bool, ghost pushed: seq<Hex>, ghost added: seq<Hex>)
    requires board.Valid()
    requires forall x :: x in visited ==> x in board.Contents() || x == current
    ensures found <==> current in board.Contents()
    ensures found ==> ownColour == (TopOf(board.Contents(), current).colour == colour)
    ensures found ==> queueAfter == queue + pushed
    ensures found ==> forall x :: x in pushed ==> x in board.Contents() && x !in visited && Adjacent(current, x)
    ensures found ==> forall k :: 0 <= k < 6 && HexNeighbour(current, k) in board.Contents() ==>
      HexNeighbour(current, k) in visited || HexNeighbour(current, k) in queueAfter
    ensures found ==> validAfter == valid + added
    ensures found ==> forall n :: n in added ==>
      ownColour && n !in board.Contents() && ValidPlacement(board.Contents(), colour, n) && Adjacent(current, n)
    ensures found && ownColour ==> forall k :: (0 <= k < 6 && HexNeighbour(current, k) !in board.Contents() &&
      ValidPlacement(board.Contents(), colour, HexNeighbour(current, k))) ==> HexNeighbour(current, k) in validAfter
  {
    var top := board.GetPieceAt(current);
    if top.None? {
      return false, queue, valid, false, [], [];
    }
    var own := top.value.colour == colour;
    found, ownColour := true, own;
    queueAfter, validAfter, pushed, added := ExpandPlacement(board, colour, current, own, visited, queue, valid);
  }

  /** The neighbours of a polled hex: queue its unvisited occupied neighbours
      and, when its tile shows the placing colour, record its empty neighbours
      that are valid placements. */
  method ExpandPlacement(board: HiveBoardState, colour: Colour, current: Hex, ownColour: bool,
                         visited: set<Hex>, queue: seq<Hex>, valid: seq<Hex>)
    returns (queueAfter: seq<Hex>, validAfter: seq<Hex>, ghost pushed: seq<Hex>, ghost added: seq<Hex>)
    requires board.Valid()
    requires forall x :: x in visited ==> x in board.Contents()
    ensures queueAfter == queue + pushed
    ensures forall x :: x in pushed ==> x in board.Contents() && x !in visited && Adjacent(current, x)
    ensures forall k :: 0 <= k < 6 && HexNeighbour(current, k) in board.Contents() ==>
      HexNeighbour(current, k) in visited || HexNeighbour(current, k) in queueAfter
    ensures validAfter == valid + added
    ensures forall n :: n in added ==>
      ownColour && n !in board.Contents() && ValidPlacement(board.Contents(), colour, n) && Adjacent(current, n)
    ensures ownColour ==> forall k :: (0 <= k < 6 && HexNeighbour(current, k) !in board.Contents() &&
      ValidPlacement(board.Contents(), colour, HexNeighbour(current, k))) ==> HexNeighbour(current, k) in validAfter
  {
    var b := board.Contents();
    var neighbours := Neighbours(current);
    queueAfter, validAfter, pushed, added := queue, valid, [], [];
    var i := 0;
    while i < 6
      invariant 0 <= i <= 6
      invariant queueAfter == queue + pushed
      invariant forall x :: x in pushed ==> x in b && x !in visited && Adjacent(current, x)
      invariant forall k :: 0 <= k < i && HexNeighbour(current, k) in b ==>
        HexNeighbour(current, k) in visited || HexNeighbour(current, k) in queueAfter
      invariant validAfter == valid + added
      invariant forall n :: n in added ==> ownColour && n !in b && ValidPlacement(b, colour, n) && Adjacent(current, n)
      invariant ownColour ==> forall k :: (0 <= k < i && HexNeighbour(current, k) !in b &&
        ValidPlacement(b, colour, HexNeighbour(current, k))) ==> HexNeighbour(current, k) in validAfter
    {
      var n := neighbours[i];
      NeighbourIsAdjacent(current, i);
      if !ownColour {
        if n !in visited && board.HasTileAtHex(n) {
          PushOne(queue, pushed, queueAfter, n);
          queueAfter, pushed := queueAfter + [n], pushed + [n];
        }
      } else if n !in visited {
        if board.HasTileAtHex(n) {
          PushOne(queue, pushed, queueAfter, n);
          queueAfter, pushed := queueAfter + [n], pushed + [n];
        } else {
          var ok := IsValidPlacePosition(board, colour, n);
          if ok {
            PushOne(valid, added, validAfter, n);
            validAfter, added := validAfter + [n], added + [n];
          }
        }
      }
      i := i + 1;
    }
  }

  /** When the queue runs dry, the visited set is closed, so it holds every
      hex the search can reach, and the recorded hexes are exactly the
      placement targets. */
  lemma PlacementSearchDone(b: Board, colour: Colour, start: Hex, visited: set<Hex>, valid: seq<Hex>)
    requires WellStacked(b) && start in visited && PlacementSearch(b, colour, start, visited, [], valid)
    ensures forall n :: n in valid <==> PlacementTarget(b, colour, start, n)
  {
    assert Closed(b, None, visited);
    ClosedContainsReach(b, start, None, visited);
    forall n | PlacementTarget(b, colour, start, n)
      ensures n in valid
    {
      var q :| q in b && Reach(b, start, None, q) && TopOf(b, q).colour == colour && Adjacent(q, n);
      AdjacentIsNeighbour(q, n);
    }
  }

  /** On a connected board whose tiles name their hexes, the search reaches
      every tile from any start, so it offers every free placement. */
  lemma ConnectedPlacements(b: Board, colour: Colour, p: Hex)
    requires WellStacked(b) && Located(b) && HiveConnected(b) && p in b
    ensures forall n :: PlacementTarget(b, colour, TopOf(b, p).hex, n) <==> FreePlacement(b, colour, n)
  {
    forall n | FreePlacement(b, colour, n)
      ensures PlacementTarget(b, colour, TopOf(b, p).hex, n)
    {
      var q :| q in b && TopOf(b, q).colour == colour && Adjacent(q, n);
      assert Reach(b, p, None, q);
    }
  }

  /** The hexes `isConnected` marks visited before its search starts: the
      skipped hex, when a tile lies there. */
  function SkipMarker(b: Board, skip: Hex): set<Hex>
  {
    if skip in b then {skip} else {}
  }

  /** `isConnected`: true without a start; otherwise a breadth-first search
      from start over occupied hexes, never entering skip, and true exactly
      when every occupied hex ends up visited. */
  method IsConnected(board: HiveBoardState, start: Option<Hex>, skip: Hex) returns (r: bool)
    requires board.Valid()
    ensures start.None? ==> r
    ensures start.Some? ==> (r <==> ConnectedFrom(board.Contents(), start.value, skip))
  {
    if start.None? {
      return true;
    }
    var b := board.Contents();
    var visited := VisitConnected(board, start.value, skip);
    var positions := board.GetAllPositions();
    r := forall i :: 0 <= i < |positions| ==> positions[i] in visited;
    assert r <==> forall p :: p in b ==> p in visited by {
      if r {
        forall p | p in b
          ensures p in visited
        {
          var i :| 0 <= i < |positions| && positions[i] == p;
        }
      }
    }
  }

  /** The search loop of `isConnected`: the visited set it ends with holds an
      occupied hex exactly when that hex is skip or is reached from start
      without passing skip. */
  method VisitConnected(board: HiveBoardState, start: Hex, skip: Hex) returns (visited: set<Hex>)
    requires board.Valid()
    ensures forall p :: p in board.Contents() ==> (p in visited <==> p == skip || Reach(board.Contents(), start, Some(skip), p))
  {
    var b := board.Contents();
    ghost var u := b.Keys + {start};
    visited := {};
    ghost var done: set<Hex> := {};
    var queue: seq<Hex> := [start];
    if board.HasPieceAt(skip) {
      visited := visited + {skip};
    }
    ReachStart(b, start, Some(skip));
    while queue != []
      invariant ConnectSearch(b, start, skip, done, visited, queue)
      decreases |u - visited|, FirstFresh(queue, visited)
    {
      ghost var queueBefore, visitedBefore, doneBefore := queue, visited, done;
      var current := queue[0];
      visited, done := visited + {current}, done + {current};
      ghost var pushed;
      queue, pushed := ExpandConnected(board, current, skip, visited, queue[1..]);
      ConnectSearchStep(b, start, skip, doneBefore, visitedBefore, queueBefore, current, pushed, visited, queue);
      SearchProgress(u, visitedBefore, queueBefore, pushed);
    }
    ConnectSearchDone(b, start, skip, done, visited);
  }

  /** What the connectivity search keeps true between polls: the polled hexes
      and the queue are reached from start avoiding skip, and every occupied
      neighbour other than skip of a polled hex is visited or queued. */
  ghost predicate ConnectSearch(b: Board, start: Hex, skip: Hex, done: set<Hex>, visited: set<Hex>, queue: seq<Hex>)
  {
    && ((done == {} && queue == [start]) || start in done)
    && visited == done + SkipMarker(b, skip)
    && visited <= b.Keys + {start}
    && (forall x :: x in done ==> (x in b || x == start) && Reach(b, start, Some(skip), x))
    && (forall x :: x in queue ==> (x in b || x == start) && Reach(b, start, Some(skip), x))
    && (forall x, k :: x in done && 0 <= k < 6 && HexNeighbour(x, k) in b && HexNeighbour(x, k) != skip ==>
          HexNeighbour(x, k) in visited || HexNeighbour(x, k) in queue)
  }

  /** The neighbours of a polled hex: queue those that hold a tile, are not
      skip and are not yet visited. */
  method ExpandConnected(board: HiveBoardState, current: Hex, skip: Hex, visited: set<Hex>, queue: seq<Hex>)
    returns (queueAfter: seq<Hex>, ghost pushed: seq<Hex>)
    requires board.Valid()
    ensures queueAfter == queue + pushed
    ensures forall x :: x in pushed ==> x in board.Contents() && x != skip && x !in visited && Adjacent(current, x)
    ensures forall k :: 0 <= k < 6 && HexNeighbour(current, k) in board.Contents() && HexNeighbour(current, k) != skip ==>
      HexNeighbour(current, k) in visited || HexNeighbour(current, k) in queueAfter
  {
    var neighbours := Neighbours(current);
    queueAfter, pushed := queue, [];
    var i := 0;
    while i < 6
      invariant 0 <= i <= 6
      invariant queueAfter == queue + pushed
      invariant forall x :: x in pushed ==> x in board.Contents() && x != skip && x !in visited && Adjacent(current, x)
      invariant forall k :: 0 <= k < i && HexNeighbour(current, k) in board.Contents() && HexNeighbour(current, k) != skip ==>
        HexNeighbour(current, k) in visited || HexNeighbour(current, k) in queueAfter
    {
      var n := neighbours[i];
      NeighbourIsAdjacent(current, i);
      if n != skip && board.HasPieceAt(n) && n !in visited {
        queueAfter, pushed := queueAfter + [n], pushed + [n];
      }
      i := i + 1;
    }
  }

  /** One poll keeps the connectivity invariant. */
  lemma ConnectSearchStep(b: Board, start: Hex, skip: Hex, done: set<Hex>, visited: set<Hex>, queue: seq<Hex>,
                          current: Hex, pushed: seq<Hex>, visitedAfter: set<Hex>, queueAfter: seq<Hex>)
    requires ConnectSearch(b, start, skip, done, visited, queue)
    requires queue != [] && current == queue[0]
    requires visitedAfter == visited + {current} && queueAfter == queue[1..] + pushed
    requires forall x :: x in pushed ==> x in b && x != skip && x !in visitedAfter && Adjacent(current, x)
    requires forall k :: 0 <= k < 6 && HexNeighbour(current, k) in b && HexNeighbour(current, k) != skip ==>
      HexNeighbour(current, k) in visitedAfter || HexNeighbour(current, k) in queueAfter
    ensures ConnectSearch(b, start, skip, done + {current}, visitedAfter, queueAfter)
  {
    assert visitedAfter == (done + {current}) + SkipMarker(b, skip);
    assert Reach(b, start, Some(skip), current);
    forall x | x in pushed
      ensures Reach(b, start, Some(skip), x)
    {
      ReachStep(b, start, Some(skip), current, x);
    }
  }

  /** When the queue runs dry, an occupied hex is visited exactly when it is
      skip or reached from start. */
  lemma ConnectSearchDone(b: Board, start: Hex, skip: Hex, done: set<Hex>, visited: set<Hex>)
    requires ConnectSearch(b, start, skip, done, visited, [])
    ensures forall p :: p in b ==> (p in visited <==> p == skip || Reach(b, start, Some(skip), p))
  {
    assert Closed(b, Some(skip), done);
    ClosedContainsReach(b, start, Some(skip), done);
  }

  /** What `isOneHiveWhileMoving` decides: moving the tile keeps the hive in
      one piece, because fewer than two hexes are occupied, the tile leaves a
      stack behind, or the other hexes hold together without its hex. */
  ghost predicate OneHiveWhileMoving(b: Board, tile: HiveTile)
  {
    || |b| < 2
    || (tile.hex in b && |b[tile.hex]| > 1)
    || HiveConnectedWithout(b, tile.hex)
  }

  /** The case in which `isOneHiveWhileMoving` draws a start for its search. */
  ghost predicate DrawsStart(b: Board, tile: HiveTile)
  {
    |b| >= 2 && !(tile.hex in b && |b[tile.hex]| > 1)
  }

  /** `isOneHiveWhileMoving`: true on a board of fewer than two positions or
      when the tile sits on a stack; otherwise the connectivity search,
      skipping the tile's hex, from a randomly drawn top tile's hex that
      differs from it. The drawing loop ends only once such a tile exists,
      which the second precondition states. */
  method IsOneHiveWhileMoving(board: HiveBoardState, tile: HiveTile) returns (r: bool)
    requires board.Valid()
    requires DrawsStart(board.Contents(), tile) ==>
      exists p :: p in board.Contents() && TopOf(board.Contents(), p).hex != tile.hex
    ensures !DrawsStart(board.Contents(), tile) ==> r
    ensures DrawsStart(board.Contents(), tile) ==>
      exists p :: p in board.Contents() && TopOf(board.Contents(), p).hex != tile.hex &&
        (r <==> ConnectedFrom(board.Contents(), TopOf(board.Contents(), p).hex, tile.hex))
    ensures Located(board.Contents()) ==> (r <==> OneHiveWhileMoving(board.Contents(), tile))
  {
    var b := board.Contents();
    var positions := board.GetAllPositions();
    if |positions| < 2 {
      return true;
    }
    if board.HasPieceAt(tile.hex) {
      var stack := board.store.GetPieceAt(tile.hex);
      if |stack.value| > 1 {
        return true;
      }
    }
    var p :| p in b && TopOf(b, p).hex != tile.hex;
    var drawn := TopOf(b, p).hex;
    r := IsConnected(board, Some(drawn), tile.hex);
    if Located(b) {
      ConnectedFromAnyStart(b, p, tile.hex);
    }
  }

  /** On a board whose tiles name their hexes, the draw always succeeds. */
  lemma LocatedDrawSucceeds(b: Board, tile: HiveTile)
    requires WellStacked(b) && Located(b) && |b| >= 2
    ensures exists p :: p in b && TopOf(b, p).hex != tile.hex
  {
    var x :| x in b;
    if x == tile.hex {
      assert |b.Keys - {x}| == |b.Keys| - 1;
      var y :| y in b.Keys - {x};
      assert TopOf(b, y).hex == y;
    } else {
      assert TopOf(b, x).hex == x;
    }
  }
}
