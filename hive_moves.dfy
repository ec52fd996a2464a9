/** The crawling pieces of HiveRuleEngine.java, the spider and the soldier
    ant, and `generatePieceMoves`, which picks the move generator for a tile
    once the one-hive test has passed. */
module HiveMoves {
  import opened Common
  import opened HexGrid
  import opened HiveTypes
  import opened HiveBoard
  import opened HiveReach
  import opened HiveRuleEngine
  import opened MapStorage

  /** h has an occupied neighbour other than origin, the hex the moving tile
      leaves: what `isOccupiedUnconnectedPosition` reports as connected while
      origin is the only occupied hex marked visited. */
  ghost predicate Touches(b: Board, origin: Hex, h: Hex)
  {
    exists k :: 0 <= k < 6 && HexNeighbour(h, k) in b && HexNeighbour(h, k) != origin
  }

  /** The only occupied hex a crawl marks visited is the one the tile leaves. */
  ghost predicate CrawlVisited(b: Board, origin: Hex, visited: set<Hex>)
  {
    origin in visited && forall x :: x in visited && x in b ==> x == origin
  }

  /** A connected answer from `isOccupiedUnconnectedPosition` under a crawl's
      visited set: the hex is empty, was not visited, and touches the hive. */
  lemma ConnectedAnswer(b: Board, origin: Hex, visited: set<Hex>, hex: Hex, visitedAfter: set<Hex>)
    requires CrawlVisited(b, origin, visited)
    requires hex !in b && hex !in visited && visitedAfter == visited + {hex}
    requires !forall k :: 0 <= k < 6 ==> HexNeighbour(hex, k) in visitedAfter || HexNeighbour(hex, k) !in b
    ensures Touches(b, origin, hex) && CrawlVisited(b, origin, visitedAfter)
  {
    var k :| 0 <= k < 6 && HexNeighbour(hex, k) !in visitedAfter && HexNeighbour(hex, k) in b;
  }

  /* ----- Spider ----- */

  /** A crawl path: after its first hex, every hex is empty, outside avoid,
      different from the first and from each other, adjacent to the one
      before, and touching the hive apart from origin. */
  ghost predicate SpiderWalk(b: Board, origin: Hex, avoid: set<Hex>, path: seq<Hex>)
  {
    && |path| >= 1
    && (forall i :: 1 <= i < |path| ==> path[i] !in b && path[i] !in avoid && path[i] != path[0])
    && (forall i :: 1 <= i < |path| ==> Adjacent(path[i - 1], path[i]) && Touches(b, origin, path[i]))
    && (forall i, j :: 1 <= i < j < |path| ==> path[i] != path[j])
  }

  /** m moves tile to the end of a crawl path of the given number of steps
      from start. */
  ghost predicate SpiderMove(b: Board, tile: HiveTile, avoid: set<Hex>, start: Hex, steps: nat, m: HiveMove)
  {
    && m == HiveMove(tile, m.nextPosition, false)
    && exists path {:trigger SpiderWalk(b, tile.hex, avoid, path)} :: |path| == steps + 1 && path[0] == start && path[steps] == m.nextPosition &&
                      SpiderWalk(b, tile.hex, avoid, path)
  }

  /** Every move in ms is a spider move of that many steps from start. */
  ghost predicate SpiderMovesFrom(b: Board, tile: HiveTile, avoid: set<Hex>, start: Hex, steps: nat, ms: seq<HiveMove>)
  {
    forall m :: m in ms ==> SpiderMove(b, tile, avoid, start, steps, m)
  }

  /** Joining the moves found so far with those of one more neighbour. */
  lemma SpiderMovesJoin(b: Board, tile: HiveTile, avoid: set<Hex>, start: Hex, steps: nat, xs: seq<HiveMove>, ys: seq<HiveMove>,
                        moves: seq<HiveMove>, before: seq<HiveMove>, after: seq<HiveMove>)
    requires SpiderMovesFrom(b, tile, avoid, start, steps, xs) && SpiderMovesFrom(b, tile, avoid, start, steps, ys)
    requires before == moves + xs && after == before + ys
    ensures SpiderMovesFrom(b, tile, avoid, start, steps, xs + ys) && after == moves + (xs + ys)
  {
  }

  /** A crawl path extends backwards by a hex next to its first hex. */
  lemma PrependWalk(b: Board, origin: Hex, avoid: set<Hex>, avoidLater: set<Hex>, hex: Hex, path: seq<Hex>)
    requires SpiderWalk(b, origin, avoidLater, path) && avoid + {hex} <= avoidLater
    requires path[0] !in b && path[0] !in avoid && path[0] != hex
    requires Adjacent(hex, path[0]) && Touches(b, origin, path[0])
    ensures SpiderWalk(b, origin, avoid, [hex] + path)
  {
    var longer := [hex] + path;
    forall i | 1 <= i < |longer|
      ensures longer[i] !in b && longer[i] !in avoid && longer[i] != longer[0]
      ensures Adjacent(longer[i - 1], longer[i]) && Touches(b, origin, longer[i])
    {
      assert longer[i] == path[i - 1];
      if i > 1 {
        assert longer[i - 1] == path[i - 2];
      }
    }
    forall i, j | 1 <= i < j < |longer|
      ensures longer[i] != longer[j]
    {
      assert longer[i] == path[i - 1] && longer[j] == path[j - 1];
    }
  }

  /** A crawl from n extends backwards to a hex next to n. */
  lemma SpiderPrepend(b: Board, tile: HiveTile, avoid: set<Hex>, avoidLater: set<Hex>,
                      hex: Hex, n: Hex, steps: nat, m: HiveMove)
    requires SpiderMove(b, tile, avoidLater, n, steps, m)
    requires avoid + {hex} <= avoidLater
    requires n !in b && n !in avoid && n != hex && Adjacent(hex, n) && Touches(b, tile.hex, n)
    ensures SpiderMove(b, tile, avoid, hex, steps + 1, m)
  {
    var path :| |path| == steps + 1 && path[0] == n && path[steps] == m.nextPosition &&
                SpiderWalk(b, tile.hex, avoidLater, path);
    PrependWalk(b, tile.hex, avoid, avoidLater, hex, path);
    assert ([hex] + path)[steps + 1] == m.nextPosition;
  }

  /** `spiderMoveToDepth`: at depth three the hex reached is a destination;
      below it the hex is marked visited and the search goes on into each
      neighbour that `isOccupiedUnconnectedPosition` lets through. The visited
      set is shared by every branch, and every caller has already marked hex
      visited. Each destination added lies
      3 - depth crawl steps from hex, avoiding what was visited on entry. */
  method SpiderMoveToDepth(board: HiveBoardState, hex: Hex, tile: HiveTile, depth: int,
                           visited: set<Hex>, moves: seq<HiveMove>)
    returns (visitedAfter: set<Hex>, movesAfter: seq<HiveMove>, ghost added: seq<HiveMove>)
    requires board.Valid() && 1 <= depth <= 3
    requires CrawlVisited(board.Contents(), tile.hex, visited) && hex in visited
    ensures visited <= visitedAfter && CrawlVisited(board.Contents(), tile.hex, visitedAfter)
    ensures movesAfter == moves + added
    ensures SpiderMovesFrom(board.Contents(), tile, visited, hex, 3 - depth, added)
    decreases 3 - depth, 2
  {
    if depth == 3 {
      var m := HiveMove(tile, hex, false);
      assert SpiderWalk(board.Contents(), tile.hex, visited, [hex]);
      return visited, moves + [m], [m];
    }
    visitedAfter, movesAfter, added := SpiderLevel(board, hex, tile, depth, visited, moves);
  }

  /** The loop of `spiderMoveToDepth` below depth three, over the six
      neighbours of hex. */
  method SpiderLevel(board: HiveBoardState, hex: Hex, tile: HiveTile, depth: int,
                     visited: set<Hex>, moves: seq<HiveMove>)
    returns (visitedAfter: set<Hex>, movesAfter: seq<HiveMove>, ghost added: seq<HiveMove>)
    requires board.Valid() && 1 <= depth < 3
    requires CrawlVisited(board.Contents(), tile.hex, visited) && hex in visited
    ensures visited <= visitedAfter && CrawlVisited(board.Contents(), tile.hex, visitedAfter)
    ensures movesAfter == moves + added
    ensures SpiderMovesFrom(board.Contents(), tile, visited, hex, 3 - depth, added)
    decreases 3 - depth, 1
  {
    var b := board.Contents();
    visitedAfter := visited + {hex};
    movesAfter, added := moves, [];
    var neighbours := Neighbours(hex);
    var i := 0;
    while i < 6
      invariant 0 <= i <= 6
      invariant visited <= visitedAfter && CrawlVisited(b, tile.hex, visitedAfter)
      invariant movesAfter == moves + added
      invariant SpiderMovesFrom(b, tile, visited, hex, 3 - depth, added)
    {
      NeighbourIsAdjacent(hex, i);
      ghost var more;
      ghost var before := movesAfter;
      visitedAfter, movesAfter, more :=
        SpiderNeighbour(board, hex, neighbours[i], tile, depth, visited, visitedAfter, movesAfter);
      SpiderMovesJoin(b, tile, visited, hex, 3 - depth, added, more, moves, before, movesAfter);
      added := added + more;
      i := i + 1;
    }
  }

  /** One neighbour n of hex in `spiderMoveToDepth`: skipped when occupied,
      visited or unconnected, and otherwise searched one level deeper. */
  method SpiderNeighbour(board: HiveBoardState, hex: Hex, n: Hex, tile: HiveTile, depth: int,
                         entry: set<Hex>, visited: set<Hex>, moves: seq<HiveMove>)
    returns (visitedAfter: set<Hex>, movesAfter: seq<HiveMove>, ghost more: seq<HiveMove>)
    requires board.Valid() && 1 <= depth < 3
    requires CrawlVisited(board.Contents(), tile.hex, visited) && entry <= visited && hex in entry
    requires Adjacent(hex, n)
    ensures visited <= visitedAfter && CrawlVisited(board.Contents(), tile.hex, visitedAfter)
    ensures movesAfter == moves + more
    ensures SpiderMovesFrom(board.Contents(), tile, entry, hex, 3 - depth, more)
    decreases 3 - depth, 0
  {
    var b := board.Contents();
    var unconnected;
    unconnected, visitedAfter := IsOccupiedUnconnectedPosition(board, n, visited);
    movesAfter, more := moves, [];
    if !unconnected {
      ConnectedAnswer(b, tile.hex, visited, n, visitedAfter);
      ghost var visitedNow := visitedAfter;
      visitedAfter, movesAfter, more := SpiderMoveToDepth(board, n, tile, depth + 1, visitedAfter, moves);
      forall m | m in more
        ensures SpiderMove(b, tile, entry, hex, 3 - depth, m)
      {
        SpiderPrepend(b, tile, entry, visitedNow, hex, n, 2 - depth, m);
      }
    }
  }

  /** The moves `spiderMoves` offers: three crawl steps from the spider's hex,
      the first a free slide onto an empty neighbour. */
  ghost predicate SpiderDestination(b: Board, tile: HiveTile, m: HiveMove)
  {
    && m == HiveMove(tile, m.nextPosition, false)
    && exists path {:trigger SpiderWalk(b, tile.hex, {}, path)} :: |path| == 4 && path[0] == tile.hex && path[3] == m.nextPosition &&
                      SpiderWalk(b, tile.hex, {}, path) && IsFreeToMove(b, path[1], path[0])
  }

  /** `spiderMoves`: from every empty neighbour that touches the hive and can
      be slid into, the depth-three search, each with a fresh visited set
      holding the spider's hex and that neighbour. */
  method SpiderMoves(board: HiveBoardState, tile: HiveTile) returns (moves: seq<HiveMove>)
    requires board.Valid()
    ensures forall m :: m in moves ==> SpiderDestination(board.Contents(), tile, m)
  {
    var b := board.Contents();
    moves := [];
    var neighbours := Neighbours(tile.hex);
    var i := 0;
    while i < 6
      invariant 0 <= i <= 6
      invariant forall m :: m in moves ==> SpiderDestination(b, tile, m)
    {
      var n := neighbours[i];
      NeighbourIsAdjacent(tile.hex, i);
      if !board.HasTileAtHex(n) {
        var visited := {tile.hex};
        var unconnected;
        unconnected, visited := IsOccupiedUnconnectedPosition(board, n, visited);
        if !unconnected && IsFreeToMove(b, n, tile.hex) {
          ConnectedAnswer(b, tile.hex, {tile.hex}, n, visited);
          visited := visited + {n};
          assert visited == {tile.hex, n};
          ghost var added;
          visited, moves, added := SpiderMoveToDepth(board, n, tile, 1, visited, moves);
          forall m | m in added
            ensures SpiderDestination(b, tile, m)
          {
            SpiderFirstStep(b, tile, n, m);
          }
        }
      }
      i := i + 1;
    }
  }

  /** A two-step crawl from a free, touching neighbour of the spider is a
      spider destination. */
  lemma SpiderFirstStep(b: Board, tile: HiveTile, n: Hex, m: HiveMove)
    requires SpiderMove(b, tile, {tile.hex, n}, n, 2, m)
    requires n !in b && n != tile.hex && Adjacent(tile.hex, n) && Touches(b, tile.hex, n)
    requires IsFreeToMove(b, n, tile.hex)
    ensures SpiderDestination(b, tile, m)
  {
    var path :| |path| == 3 && path[0] == n && path[2] == m.nextPosition &&
                SpiderWalk(b, tile.hex, {tile.hex, n}, path);
    PrependWalk(b, tile.hex, {}, {tile.hex, n}, tile.hex, path);
    var whole := [tile.hex] + path;
    assert whole[1] == n && whole[0] == tile.hex && whole[3] == m.nextPosition;
  }

  /** A spider never ends where it started, nor on an occupied hex, and ends
      at most three hexes away. */
  lemma SpiderDestinationMeaning(b: Board, tile: HiveTile, m: HiveMove)
    requires SpiderDestination(b, tile, m)
    ensures m.pieceToMove == tile && !m.placementMove
    ensures m.nextPosition != tile.hex && m.nextPosition !in b
    ensures HexDistance(tile.hex, m.nextPosition) <= 3
  {
    var path :| |path| == 4 && path[0] == tile.hex && path[3] == m.nextPosition &&
                SpiderWalk(b, tile.hex, {}, path) && IsFreeToMove(b, path[1], path[0]);
    assert Adjacent(path[0], path[1]) && Adjacent(path[1], path[2]) && Adjacent(path[2], path[3]);
    DistanceTriangle(path[0], path[1], path[2]);
    DistanceTriangle(path[0], path[2], path[3]);
  }

  /* ----- Soldier ant ----- */

  /** An ant's crawl from origin: through empty hexes that touch the hive
      apart from origin, each step a free slide to an adjacent hex. */
  ghost predicate AntWalk(b: Board, origin: Hex, path: seq<Hex>)
  {
    && |path| >= 1 && path[0] == origin
    && (forall i :: 1 <= i < |path| ==> path[i] !in b && Touches(b, origin, path[i]))
    && (forall i :: 1 <= i < |path| ==> Adjacent(path[i - 1], path[i]) && IsFreeToMove(b, path[i - 1], path[i]))
  }

  ghost predicate AntReach(b: Board, origin: Hex, x: Hex)
  {
    exists path {:trigger AntWalk(b, origin, path)} :: AntWalk(b, origin, path) && path[|path| - 1] == x
  }

  lemma AntReachStep(b: Board, origin: Hex, x: Hex, y: Hex)
    requires AntReach(b, origin, x)
    requires y !in b && Touches(b, origin, y) && Adjacent(x, y) && IsFreeToMove(b, x, y)
    ensures AntReach(b, origin, y)
  {
    var path :| AntWalk(b, origin, path) && path[|path| - 1] == x;
    var longer := path + [y];
    forall i | 1 <= i < |longer|
      ensures longer[i] !in b && Touches(b, origin, longer[i])
      ensures Adjacent(longer[i - 1], longer[i]) && IsFreeToMove(b, longer[i - 1], longer[i])
    {
      if i < |path| {
        assert longer[i] == path[i] && longer[i - 1] == path[i - 1];
      }
    }
    assert AntWalk(b, origin, longer);
  }

  /** The moves `soldierAntMoves` offers: the ant goes to a hex other than its
      own that a crawl reaches. */
  ghost predicate AntDestination(b: Board, tile: HiveTile, m: HiveMove)
  {
    m == HiveMove(tile, m.nextPosition, false) && m.nextPosition != tile.hex && AntReach(b, tile.hex, m.nextPosition)
  }

  /** An ant ends on an empty hex that touches the hive apart from its own. */
  lemma AntDestinationMeaning(b: Board, tile: HiveTile, m: HiveMove)
    requires AntDestination(b, tile, m)
    ensures m.pieceToMove == tile && !m.placementMove
    ensures m.nextPosition !in b && Touches(b, tile.hex, m.nextPosition)
  {
    var path :| AntWalk(b, tile.hex, path) && path[|path| - 1] == m.nextPosition;
    assert |path| > 1;
  }

  /** No two moves lead to the same hex. */
  ghost predicate DistinctTargets(moves: seq<HiveMove>)
  {
    forall i, j :: 0 <= i < j < |moves| ==> moves[i].nextPosition != moves[j].nextPosition
  }

  /** The hexes next to those of s. */
  ghost function Around(s: set<Hex>): set<Hex>
  {
    set h, k | h in s && 0 <= k < 6 :: HexNeighbour(h, k)
  }

  /** A finite set holding every hex an ant's search can mark visited. */
  ghost function AntBound(b: Board, origin: Hex): set<Hex>
  {
    {origin} + Around({origin}) + Around(Around(b.Keys))
  }

  /** A neighbour of the origin or of a hex touching the hive is in the bound. */
  lemma NeighbourInBound(b: Board, origin: Hex, x: Hex, y: Hex)
    requires x == origin || Touches(b, origin, x)
    requires Adjacent(x, y)
    ensures y in AntBound(b, origin)
  {
    AdjacentIsNeighbour(x, y);
    var k :| 0 <= k < 6 && y == HexNeighbour(x, k);
    if x == origin {
      assert y in Around({origin});
    } else {
      var j :| 0 <= j < 6 && HexNeighbour(x, j) in b && HexNeighbour(x, j) != origin;
      StepBack(x, j);
      assert x in Around(b.Keys) by {
        assert x == HexNeighbour(HexNeighbour(x, j), OppositeDirection(j));
      }
      assert y in Around(Around(b.Keys));
    }
  }

  /** Growing the visited set never grows what is left of a bound, and adding
      a member of the bound shrinks it. */
  lemma RemainderShrinks(bound: set<Hex>, visited: set<Hex>, visitedAfter: set<Hex>, x: Hex)
    requires visited <= visitedAfter
    ensures |bound - visitedAfter| <= |bound - visited|
    ensures x in bound && x in visitedAfter && x !in visited ==> |bound - visitedAfter| < |bound - visited|
  {
    var gained := (bound * visitedAfter) - visited;
    assert bound - visited == (bound - visitedAfter) + gained;
    assert (bound - visitedAfter) * gained == {};
    if x in bound && x in visitedAfter && x !in visited {
      assert x in gained;
    }
  }

  /** What the ant's search keeps true between polls: it has marked only the
      ant's hex and empty hexes within the bound; every queued hex is marked,
      is the ant's hex or touches the hive, and is reached by a crawl; no hex
      is polled or queued twice; and each move is to a polled hex reached by
      a crawl, no two to the same hex. */
  ghost predicate AntSearch(b: Board, tile: HiveTile, visited: set<Hex>, queue: seq<Hex>,
                            polled: seq<Hex>, moves: seq<HiveMove>)
  {
    && CrawlVisited(b, tile.hex, visited) && visited <= AntBound(b, tile.hex)
    && (forall x :: x in queue ==> x in visited && AntReach(b, tile.hex, x) && (x == tile.hex || Touches(b, tile.hex, x)))
    && (forall x :: x in polled ==> x in visited)
    && Distinct(polled + queue)
    && (forall m :: m in moves ==> AntDestination(b, tile, m) && m.nextPosition in polled)
    && DistinctTargets(moves)
  }

  /** `soldierAntMoves`: a breadth-first search from the ant's hex over empty
      hexes; each neighbour that `isOccupiedUnconnectedPosition` lets through
      and that the ant can slide to is queued, and every polled hex other
      than the ant's own becomes a move. */
  method SoldierAntMoves(board: HiveBoardState, tile: HiveTile) returns (moves: seq<HiveMove>)
    requires board.Valid()
    ensures forall m :: m in moves ==> AntDestination(board.Contents(), tile, m)
    ensures DistinctTargets(moves)
  {
    var b := board.Contents();
    ghost var bound := AntBound(b, tile.hex);
    moves := [];
    var queue := [tile.hex];
    var visited := {tile.hex};
    ghost var polled: seq<Hex> := [];
    assert AntWalk(b, tile.hex, [tile.hex]);
    assert polled + queue == [tile.hex];
    while queue != []
      invariant AntSearch(b, tile, visited, queue, polled, moves)
      decreases |bound - visited|, |queue|
    {
      ghost var visitedBefore, queueBefore, movesBefore := visited, queue, moves;
      var next := queue[0];
      ghost var pushed;
      visited, queue, pushed := ExpandAnt(board, tile.hex, next, visited, queue[1..]);
      if next != tile.hex {
        moves := moves + [HiveMove(tile, next, false)];
      }
      AntSearchStep(b, tile, visitedBefore, queueBefore, polled, movesBefore, pushed, visited, queue, moves);
      polled := polled + [next];
    }
  }

  /** The neighbours of a polled hex in `soldierAntMoves`: each is marked by
      `isOccupiedUnconnectedPosition`, and queued when it is connected and
      the ant can slide to it from next. */
  method ExpandAnt(board: HiveBoardState, origin: Hex, next: Hex, visited: set<Hex>, queue: seq<Hex>)
    returns (visitedAfter: set<Hex>, queueAfter: seq<Hex>, ghost pushed: seq<Hex>)
    requires board.Valid() && CrawlVisited(board.Contents(), origin, visited)
    ensures visited <= visitedAfter && CrawlVisited(board.Contents(), origin, visitedAfter)
    ensures forall x :: x in visitedAfter && x !in visited ==> Adjacent(next, x)
    ensures queueAfter == queue + pushed && Distinct(pushed)
    ensures forall x :: x in pushed ==>
      && x in visitedAfter && x !in visited && x !in board.Contents()
      && Touches(board.Contents(), origin, x) && Adjacent(next, x) && IsFreeToMove(board.Contents(), next, x)
  {
    var b := board.Contents();
    var neighbours := Neighbours(next);
    visitedAfter, queueAfter, pushed := visited, queue, [];
    var i := 0;
    while i < 6
      invariant 0 <= i <= 6
      invariant visited <= visitedAfter && CrawlVisited(b, origin, visitedAfter)
      invariant forall x :: x in visitedAfter && x !in visited ==> Adjacent(next, x)
      invariant queueAfter == queue + pushed && Distinct(pushed)
      invariant forall x :: x in pushed ==>
        && x in visitedAfter && x !in visited && x !in b
        && Touches(b, origin, x) && Adjacent(next, x) && IsFreeToMove(b, next, x)
    {
      var hex := neighbours[i];
      NeighbourIsAdjacent(next, i);
      ghost var before := visitedAfter;
      var unconnected;
      unconnected, visitedAfter := IsOccupiedUnconnectedPosition(board, hex, visitedAfter);
      if !unconnected {
        ConnectedAnswer(b, origin, before, hex, visitedAfter);
        if IsFreeToMove(b, next, hex) {
          queueAfter, pushed := queueAfter + [hex], pushed + [hex];
        }
      }
      i := i + 1;
    }
  }

  /** One poll keeps the ant's search invariant and makes progress. */
  lemma AntSearchStep(b: Board, tile: HiveTile, visited: set<Hex>, queue: seq<Hex>, polled: seq<Hex>,
                      moves: seq<HiveMove>, pushed: seq<Hex>,
                      visitedAfter: set<Hex>, queueAfter: seq<Hex>, movesAfter: seq<HiveMove>)
    requires AntSearch(b, tile, visited, queue, polled, moves) && queue != []
    requires visited <= visitedAfter && CrawlVisited(b, tile.hex, visitedAfter)
    requires forall x :: x in visitedAfter && x !in visited ==> Adjacent(queue[0], x)
    requires queueAfter == queue[1..] + pushed && Distinct(pushed)
    requires forall x :: x in pushed ==>
      && x in visitedAfter && x !in visited && x !in b
      && Touches(b, tile.hex, x) && Adjacent(queue[0], x) && IsFreeToMove(b, queue[0], x)
    requires movesAfter == if queue[0] != tile.hex then moves + [HiveMove(tile, queue[0], false)] else moves
    ensures AntSearch(b, tile, visitedAfter, queueAfter, polled + [queue[0]], movesAfter)
    ensures |AntBound(b, tile.hex) - visitedAfter| < |AntBound(b, tile.hex) - visited| ||
      (|AntBound(b, tile.hex) - visitedAfter| == |AntBound(b, tile.hex) - visited| && |queueAfter| < |queue|)
  {
    var next := queue[0];
    AntVisitedStep(b, tile.hex, visited, next, visitedAfter);
    AntQueueStep(b, tile.hex, visited, queue, pushed, visitedAfter, queueAfter);
    AntMovesStep(b, tile, queue, polled, moves, movesAfter);
    assert polled + [next] + queueAfter == (polled + queue) + pushed;
    DistinctAppend(polled + queue, pushed);
    RemainderShrinks(AntBound(b, tile.hex), visited, visitedAfter, if pushed == [] then next else pushed[0]);
  }

  /** The hexes a poll marks stay within the bound. */
  lemma AntVisitedStep(b: Board, origin: Hex, visited: set<Hex>, next: Hex, visitedAfter: set<Hex>)
    requires visited <= AntBound(b, origin) && (next == origin || Touches(b, origin, next))
    requires forall x :: x in visitedAfter && x !in visited ==> Adjacent(next, x)
    ensures visitedAfter <= AntBound(b, origin)
  {
    forall x | x in visitedAfter
      ensures x in AntBound(b, origin)
    {
      if x !in visited {
        NeighbourInBound(b, origin, next, x);
      }
    }
  }

  /** The queue after a poll still holds only marked hexes reached by a crawl. */
  lemma AntQueueStep(b: Board, origin: Hex, visited: set<Hex>, queue: seq<Hex>, pushed: seq<Hex>,
                     visitedAfter: set<Hex>, queueAfter: seq<Hex>)
    requires queue != [] && visited <= visitedAfter
    requires forall x :: x in queue ==> x in visited && AntReach(b, origin, x) && (x == origin || Touches(b, origin, x))
    requires queueAfter == queue[1..] + pushed
    requires forall x :: x in pushed ==>
      && x in visitedAfter && x !in b && Touches(b, origin, x) && Adjacent(queue[0], x) && IsFreeToMove(b, queue[0], x)
    ensures forall x :: x in queueAfter ==>
      x in visitedAfter && AntReach(b, origin, x) && (x == origin || Touches(b, origin, x))
  {
    forall x | x in queueAfter
      ensures x in visitedAfter && AntReach(b, origin, x) && (x == origin || Touches(b, origin, x))
    {
      if x in pushed {
        AntReachStep(b, origin, queue[0], x);
      } else {
        assert x in queue;
      }
    }
  }

  /** The move a poll adds is an ant destination to the polled hex. */
  lemma AntMovesStep(b: Board, tile: HiveTile, queue: seq<Hex>, polled: seq<Hex>,
                     moves: seq<HiveMove>, movesAfter: seq<HiveMove>)
    requires queue != [] && AntReach(b, tile.hex, queue[0]) && Distinct(polled + queue)
    requires forall m :: m in moves ==> AntDestination(b, tile, m) && m.nextPosition in polled
    requires DistinctTargets(moves)
    requires movesAfter == if queue[0] != tile.hex then moves + [HiveMove(tile, queue[0], false)] else moves
    ensures forall m :: m in movesAfter ==> AntDestination(b, tile, m) && m.nextPosition in polled + [queue[0]]
    ensures DistinctTargets(movesAfter)
  {
    if queue[0] != tile.hex {
      NewTarget(moves, polled, queue, tile, queue[0]);
    }
  }

  /** Appending distinct new elements keeps a sequence free of repeats. */
  lemma DistinctAppend(s: seq<Hex>, more: seq<Hex>)
    requires Distinct(s) && Distinct(more) && forall x :: x in more ==> x !in s
    ensures Distinct(s + more)
  {
    var whole := s + more;
    forall i, j | 0 <= i < j < |whole|
      ensures whole[i] != whole[j]
    {
      if j >= |s| && i < |s| {
        assert whole[i] in s && whole[j] == more[j - |s|];
      } else if i >= |s| {
        assert whole[i] == more[i - |s|] && whole[j] == more[j - |s|];
      }
    }
  }

  /** A move to the head of the queue is to a hex no earlier move targets,
      because every earlier target was polled and nothing polled is queued. */
  lemma NewTarget(moves: seq<HiveMove>, polled: seq<Hex>, queue: seq<Hex>, tile: HiveTile, next: Hex)
    requires queue != [] && next == queue[0] && Distinct(polled + queue)
    requires forall m :: m in moves ==> m.nextPosition in polled
    requires DistinctTargets(moves)
    ensures DistinctTargets(moves + [HiveMove(tile, next, false)])
  {
    var whole := moves + [HiveMove(tile, next, false)];
    forall i | 0 <= i < |moves|
      ensures moves[i].nextPosition != next
    {
      assert moves[i] in moves;
      var k :| 0 <= k < |polled| && polled[k] == moves[i].nextPosition;
      assert (polled + queue)[k] == polled[k] && (polled + queue)[|polled|] == next;
    }
    forall i, j | 0 <= i < j < |whole|
      ensures whole[i].nextPosition != whole[j].nextPosition
    {
      if j < |moves| {
        assert whole[i] == moves[i] && whole[j] == moves[j];
      } else {
        assert whole[i] == moves[i];
      }
    }
  }

  /* ----- Dispatch ----- */

  /** What the move generator of the tile's kind returns: the queen's and
      grasshopper's moves exactly, the beetle's moves or its missing-stack
      error, and moves that are spider or ant destinations. */
  ghost predicate KindMoves(b: Board, tile: HiveTile, r: Result<seq<HiveMove>>)
    requires WellStacked(b)
  {
    match tile.tileType
    case QueenBee => r == Ok(StepMoves(tile, Targets(tile.hex, 6, QueenKeeps(b, tile))))
    case Grasshopper => r == Ok(HopMoves(b, tile))
    case Beetle =>
      if tile.hex !in b then r == Err(NullPointer)
      else if |b[tile.hex]| > 1 then r == Ok(StepMoves(tile, Neighbours(tile.hex)))
      else r == Ok(StepMoves(tile, Targets(tile.hex, 6, BeetleKeeps(b, tile))))
    case Spider => r.Ok? && forall m :: m in r.value ==> SpiderDestination(b, tile, m)
    case Ant => r.Ok? && DistinctTargets(r.value) && forall m :: m in r.value ==> AntDestination(b, tile, m)
  }

  /** `generatePieceMoves`: no moves when lifting the tile would break the
      hive, and otherwise the moves of the tile's kind. */
  method GeneratePieceMoves(board: HiveBoardState, tile: HiveTile) returns (r: Result<seq<HiveMove>>)
    requires board.Valid()
    requires DrawsStart(board.Contents(), tile) ==>
      exists p :: p in board.Contents() && TopOf(board.Contents(), p).hex != tile.hex
    ensures r == Ok([]) || KindMoves(board.Contents(), tile, r)
    ensures Located(board.Contents()) && !OneHiveWhileMoving(board.Contents(), tile) ==> r == Ok([])
    ensures Located(board.Contents()) && OneHiveWhileMoving(board.Contents(), tile) ==> KindMoves(board.Contents(), tile, r)
  {
    var oneHive := IsOneHiveWhileMoving(board, tile);
    if !oneHive {
      return Ok([]);
    }
    match tile.tileType
    case QueenBee =>
      var moves := QueenMoves(board, tile);
      r := Ok(moves);
    case Beetle =>
      r := BeetleMoves(board, tile);
    case Spider =>
      var moves := SpiderMoves(board, tile);
      r := Ok(moves);
    case Ant =>
      var moves := SoldierAntMoves(board, tile);
      r := Ok(moves);
    case Grasshopper =>
      var moves := GrassHopperMoves(board, tile);
      r := Ok(moves);
  }
}
