/** The game interface the search models drive, and the root scan the two
    minimax models share.

    A game is given by its rules as total functions on an abstract state type
    `S`, with moves `M` and players `P`. `makeMove` answers an exception with
    `Err`; `result` answers `null` with `None`. */
module GameTree {
  import opened Common

  datatype GameResult = Win | Loss | Draw

  /** What `handleNoAvailableMoves()` does: it changes the state it is called
      on in place, into `receiver`, and returns that same object, or `null`
      when `returnsThis` is false. */
  datatype Pass<S> = Pass(receiver: S, returnsThis: bool)
  {
    /** The state the call returns, `None` for `null`. */
    function Returned(): (r: Option<S>)
      ensures r.Some? <==> returnsThis
      ensures r.Some? ==> r.value == receiver
    {
      if returnsThis then Some(receiver) else None
    }
  }

  datatype Game<!S, !M, !P> = Game(
    moves: S -> seq<M>,                      // getAvailableMoves(getCurrentPlayer())
    makeMove: (S, M) -> Result<S>,           // makeMove, Err when it throws
    isTerminal: S -> bool,                   // isTerminalState
    handleNoMoves: S -> Pass<S>,             // handleNoAvailableMoves
    currentPlayer: S -> P,                   // getCurrentPlayer
    playerId: P -> string,                   // getPlayerID
    result: (S, P) -> Option<GameResult>)    // getGameResult

  /** A heuristic object: its identifier and `getEvaluation(game, player)`. */
  datatype Heuristic<!S, !P> = Heuristic(id: string, evaluate: (S, P) -> Int32)

  /** What a search needs: the rules, the heuristic and the player it scores for. */
  datatype Search<!S, !M, !P> = Search(game: Game<S, M, P>, heuristic: Heuristic<S, P>, maxPlayer: P)
  {
    function Evaluate(s: S): Int32 { heuristic.evaluate(s, maxPlayer) }
    function Child(s: S, m: M): Result<S> { game.makeMove(s, m) }
  }

  /** The position of the first of `moves` that `makeMove` refuses from `s`,
      or the number of moves when it refuses none. */
  function FirstRefused<S, M, P>(game: Game<S, M, P>, s: S, moves: seq<M>): (k: nat)
    ensures k <= |moves|
    ensures forall j :: 0 <= j < k ==> game.makeMove(s, moves[j]).Ok?
    ensures k < |moves| ==> game.makeMove(s, moves[k]).Err?
    decreases |moves|
  {
    if moves == [] || game.makeMove(s, moves[0]).Err? then 0
    else
      var k := 1 + FirstRefused(game, s, moves[1..]);
      assert forall j :: 1 <= j < |moves| ==> moves[j] == moves[1..][j - 1];
      k
  }

  /** A root move with the value its search returned. */
  datatype EvaluatedMove<M> = EvaluatedMove(move: M, value: Int32)

  /** `best` is what a scan that keeps the first strictly greater value,
      starting from Integer.MIN_VALUE, ends with: nothing when no value
      exceeds MIN_VALUE, otherwise the move of the first maximal value. */
  ghost predicate FirstStrictlyBest<M>(rs: seq<EvaluatedMove<M>>, best: Option<M>)
  {
    if forall k :: 0 <= k < |rs| ==> rs[k].value == MIN_VALUE then best == None
    else exists i :: 0 <= i < |rs| && IsFirstMaximum(rs, i) && best == Some(rs[i].move)
  }

  ghost predicate IsFirstMaximum<M>(rs: seq<EvaluatedMove<M>>, i: nat)
    requires i < |rs|
  {
    && (forall k :: 0 <= k < |rs| ==> rs[k].value <= rs[i].value)
    && (forall k :: 0 <= k < i ==> rs[k].value < rs[i].value)
  }

  /** The root aggregation of both minimax models: scan the evaluated moves in
      submission order, keeping a move only when its value is strictly greater
      than the best so far. */
  method SelectBestMove<M>(rs: seq<EvaluatedMove<M>>) returns (bestMove: Option<M>)
    ensures FirstStrictlyBest(rs, bestMove)
    ensures bestMove.Some? ==> exists k :: 0 <= k < |rs| && rs[k].value > MIN_VALUE && bestMove == Some(rs[k].move)
  {
    bestMove := None;
    var bestVal: Int32 := MIN_VALUE;
    ghost var at: int := -1;
    var i := 0;
    while i < |rs|
      invariant 0 <= i <= |rs|
      invariant -1 <= at < i
      invariant at == -1 <==> bestMove == None
      invariant at == -1 ==> bestVal == MIN_VALUE && forall k :: 0 <= k < i ==> rs[k].value == MIN_VALUE
      invariant at >= 0 ==> bestVal == rs[at].value > MIN_VALUE && bestMove == Some(rs[at].move)
      invariant at >= 0 ==> forall k :: 0 <= k < at ==> rs[k].value < bestVal
      invariant forall k :: 0 <= k < i ==> rs[k].value <= bestVal
    {
      if rs[i].value > bestVal {
        bestVal := rs[i].value;
        bestMove := Some(rs[i].move);
        at := i;
      }
      i := i + 1;
    }
    if at >= 0 {
      assert IsFirstMaximum(rs, at);
    }
  }
}
