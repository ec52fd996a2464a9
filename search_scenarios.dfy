/** Small concrete game trees on which the two minimax models are worked out.
    States are node numbers; a move is the number of the node it leads to. */
module SearchScenarios {
  import opened Common
  import opened GameTree
  import Minimax
  import AlphaBeta

  /** Node 0 has children 1, 2, 3, which are terminal with values +5, -3, +2. */
  function OnePlyMoves(n: int): seq<int> { if n == 0 then [1, 2, 3] else [] }

  function OnePlyScore(n: int, p: int): Int32 { if n == 1 then 5 else if n == 2 then -3 else if n == 3 then 2 else 0 }

  function OnePly(): Search<int, int, int>
  {
    Search(Game(OnePlyMoves, (s, m) => Ok(m), n => n != 0, n => Pass(n, false), n => 0, p => "player", (n, p) => None),
           Heuristic("scenario", OnePlyScore), 0)
  }

  function OnePlyResults(): seq<EvaluatedMove<int>>
  {
    [EvaluatedMove(1, 5), EvaluatedMove(2, -3), EvaluatedMove(3, 2)]
  }

  /** Each root search of the one-ply game evaluates its leaf. */
  lemma OnePlyRootResults()
    ensures Minimax.RootResults(OnePly(), 0, [1, 2, 3], Minimax.MAX_DEPTH - 1) == OnePlyResults()
    ensures AlphaBeta.RootResults(OnePly(), 0, [1, 2, 3], Minimax.MAX_DEPTH - 1) == OnePlyResults()
  {
    assert [1, 2, 3][..2] == [1, 2] && [1, 2][..1] == [1] && [1][..0] == [];
  }

  /** Both models choose the move to the +5 leaf. */
  lemma OnePlyChoosesBest(fromMinimax: Option<int>, fromAlphaBeta: Option<int>)
    requires FirstStrictlyBest(Minimax.RootResults(OnePly(), 0, [1, 2, 3], Minimax.MAX_DEPTH - 1), fromMinimax)
    requires FirstStrictlyBest(AlphaBeta.RootResults(OnePly(), 0, [1, 2, 3], Minimax.MAX_DEPTH - 1), fromAlphaBeta)
    ensures fromMinimax == Some(1) && fromAlphaBeta == Some(1)
  {
    OnePlyRootResults();
    var rs := OnePlyResults();
    assert IsFirstMaximum(rs, 0);
    assert FirstStrictlyBest(rs, Some(1));
    AlphaBeta.FirstStrictlyBestUnique(rs, fromMinimax, Some(1));
    AlphaBeta.FirstStrictlyBestUnique(rs, fromAlphaBeta, Some(1));
  }

  /** Node 0 (maximising) has children 1 and 2 (minimising); node 1 has leaves
      3 and 4 valued 3 and 5, node 2 has leaves 5 and 6 valued 2 and 9. */
  function TwoPlyMoves(n: int): seq<int> { if n == 0 then [1, 2] else if n == 1 then [3, 4] else if n == 2 then [5, 6] else [] }

  function TwoPlyScore(n: int, p: int): Int32
  {
    if n == 3 then 3 else if n == 4 then 5 else if n == 5 then 2 else if n == 6 then 9 else 0
  }

  function TwoPly(): Search<int, int, int>
  {
    Search(Game(TwoPlyMoves, (s, m) => Ok(m), n => n >= 3, n => Pass(n, false), n => 0, p => "player", (n, p) => None),
           Heuristic("scenario", TwoPlyScore), 0)
  }

  /** The root value is max(min(3, 5), min(2, 9)) = 3 for both searches; the
      pruned search stops at node 2 after its first leaf (2 <= alpha = 3), so
      it never visits the leaf valued 9. */
  lemma TwoPlyValueAndPruning()
    ensures Minimax.Value(TwoPly(), 0, 2, true) == Some(3)
    ensures AlphaBeta.Value(TwoPly(), 0, MIN_VALUE, MAX_VALUE, 2, true) == Some(3)
    ensures Minimax.Nodes(TwoPly(), 0, 2, true) == 7
    ensures AlphaBeta.Nodes(TwoPly(), 0, MIN_VALUE, MAX_VALUE, 2, true) == 6
  {
    var x := TwoPly();
    assert Minimax.Value(x, 1, 1, false) == Some(3) by {
      assert Minimax.Fold(x, 1, [3, 4], 1, 1, false, 3) == Some(3);
    }
    assert Minimax.Value(x, 2, 1, false) == Some(2) by {
      assert Minimax.Fold(x, 2, [5, 6], 1, 1, false, 2) == Some(2);
    }
    assert Minimax.Fold(x, 0, [1, 2], 1, 2, true, 3) == Some(3);
    assert Minimax.Nodes(x, 1, 1, false) == 3 by {
      assert Minimax.FoldNodes(x, 1, [3, 4], 1, 1, false) == 1;
    }
    assert Minimax.Nodes(x, 2, 1, false) == 3 by {
      assert Minimax.FoldNodes(x, 2, [5, 6], 1, 1, false) == 1;
    }
    assert Minimax.FoldNodes(x, 0, [1, 2], 1, 2, true) == 3;
    assert AlphaBeta.Value(x, 1, MIN_VALUE, MAX_VALUE, 1, false) == Some(3) by {
      assert AlphaBeta.Fold(x, 1, [3, 4], 1, MIN_VALUE, 3, 1, false, 3) == Some(3);
    }
    assert AlphaBeta.Value(x, 2, 3, MAX_VALUE, 1, false) == Some(2);
    assert AlphaBeta.Fold(x, 0, [1, 2], 1, 3, MAX_VALUE, 2, true, 3) == Some(3);
    assert AlphaBeta.Nodes(x, 1, MIN_VALUE, MAX_VALUE, 1, false) == 3 by {
      assert AlphaBeta.FoldNodes(x, 1, [3, 4], 1, MIN_VALUE, 3, 1, false) == 1;
    }
    assert AlphaBeta.Nodes(x, 2, 3, MAX_VALUE, 1, false) == 2;
    assert AlphaBeta.FoldNodes(x, 0, [1, 2], 1, 3, MAX_VALUE, 2, true) == 2;
  }

  /** With an empty move list both models return no move. */
  lemma EmptyMoveListGivesNone<S, M, P>(x: Search<S, M, P>, s: S, fromMinimax: Option<M>, fromAlphaBeta: Option<M>, depth: int)
    requires FirstStrictlyBest(Minimax.RootResults(x, s, [], depth), fromMinimax)
    requires FirstStrictlyBest(AlphaBeta.RootResults(x, s, [], depth), fromAlphaBeta)
    ensures fromMinimax == None && fromAlphaBeta == None
  {
  }
}
