/** Alpha-beta minimax (AlphaBetaMinimaxModel.java).

    `Value` is the value `minimax(state, alpha, beta, depth, maximising)`
    returns, or `None` when a `makeMove` inside the search throws. Unlike
    plain minimax, a `null` pass state does not throw: the search evaluates
    the state the pass was called on, as the pass left it. The headline facts
    are the fail-soft window lemma and its consequence: with the full window
    (MIN_VALUE, MAX_VALUE) the pruned search returns exactly the plain
    minimax value, after exploring no more nodes. */
module AlphaBeta {
  import opened Common
  import opened GameTree
  import opened Options
  import Plain = Minimax

  const OPT_MAX_DEPTH := "Maximum depth"
  const OPT_THREAD_COUNT := "Number of threads"
  const OPT_HEURISTIC := "Heuristic"
  const DESC_MAX_DEPTH := "The maximum depth the model will go to"
  const DESC_THREAD_COUNT := "Number threads used in parallelisation, lower the value if bottle-necking is occurring, increase if the calculations take too long."
  const DESC_HEURISTIC := "The heuristic that the model will use to evaluate a board state"

  function Value<S, M, P>(x: Search<S, M, P>, s: S, alpha: Int32, beta: Int32, depth: int, maximising: bool): Option<Int32>
    decreases Plain.Height(depth), 1, 0
  {
    if depth <= 0 || x.game.isTerminal(s) then Some(x.Evaluate(s))
    else if |x.game.moves(s)| == 0 then
      var pass := x.game.handleNoMoves(s);
      match pass.Returned()
      case Some(next) => Value(x, next, alpha, beta, depth - 1, !maximising)
      case None => Some(x.Evaluate(pass.receiver))
    else Fold(x, s, x.game.moves(s), 0, alpha, beta, depth, maximising, if maximising then MIN_VALUE else MAX_VALUE)
  }

  /** The value of child `k` searched with the window (alpha, beta); `None`
      when `makeMove` throws or the child's search does. */
  function ChildValue<S, M, P>(x: Search<S, M, P>, s: S, ms: seq<M>, k: nat, alpha: Int32, beta: Int32, depth: int,
                               maximising: bool): Option<Int32>
    requires k < |ms| && depth > 0
    decreases Plain.Height(depth), 0, 0
  {
    match x.Child(s, ms[k])
    case Err(_) => None
    case Ok(c) => Value(x, c, alpha, beta, depth - 1, !maximising)
  }

  /** The sibling loop from move `i` on: a maximising node raises alpha, a
      minimising node lowers beta, and the loop stops once beta <= alpha. */
  function Fold<S, M, P>(x: Search<S, M, P>, s: S, ms: seq<M>, i: nat, alpha: Int32, beta: Int32, depth: int,
                         maximising: bool, best: Int32): Option<Int32>
    requires i <= |ms| && depth > 0
    decreases Plain.Height(depth), 0, |ms| - i
  {
    if i == |ms| then Some(best)
    else
      match ChildValue(x, s, ms, i, alpha, beta, depth, maximising)
      case None => None
      case Some(v) =>
        if maximising then
          var a := Max(alpha, v);
          if beta <= a then Some(Max(best, v)) else Fold(x, s, ms, i + 1, a, beta, depth, maximising, Max(best, v))
        else
          var b := Min(beta, v);
          if b <= alpha then Some(Min(best, v)) else Fold(x, s, ms, i + 1, alpha, b, depth, maximising, Min(best, v))
  }

  function Nodes<S, M, P>(x: Search<S, M, P>, s: S, alpha: Int32, beta: Int32, depth: int, maximising: bool): nat
    decreases Plain.Height(depth), 1, 0
  {
    1 + if depth <= 0 || x.game.isTerminal(s) then 0
        else if |x.game.moves(s)| == 0 then
          match x.game.handleNoMoves(s).Returned()
          case Some(next) => Nodes(x, next, alpha, beta, depth - 1, !maximising)
          case None => 0
        else FoldNodes(x, s, x.game.moves(s), 0, alpha, beta, depth, maximising)
  }

  /** Nodes counted by the search of child `k`; none when `makeMove` throws. */
  function ChildNodes<S, M, P>(x: Search<S, M, P>, s: S, ms: seq<M>, k: nat, alpha: Int32, beta: Int32, depth: int,
                               maximising: bool): nat
    requires k < |ms| && depth > 0
    decreases Plain.Height(depth), 0, 0
  {
    match x.Child(s, ms[k])
    case Err(_) => 0
    case Ok(c) => Nodes(x, c, alpha, beta, depth - 1, !maximising)
  }

  function FoldNodes<S, M, P>(x: Search<S, M, P>, s: S, ms: seq<M>, i: nat, alpha: Int32, beta: Int32, depth: int,
                              maximising: bool): nat
    requires i <= |ms| && depth > 0
    decreases Plain.Height(depth), 0, |ms| - i
  {
    if i == |ms| then 0
    else
      ChildNodes(x, s, ms, i, alpha, beta, depth, maximising)
        + match ChildValue(x, s, ms, i, alpha, beta, depth, maximising)
          case None => 0
          case Some(v) =>
            if maximising then
              (if beta <= Max(alpha, v) then 0 else FoldNodes(x, s, ms, i + 1, Max(alpha, v), beta, depth, maximising))
            else
              (if Min(beta, v) <= alpha then 0 else FoldNodes(x, s, ms, i + 1, alpha, Min(beta, v), depth, maximising))
  }

  /** One turn of the sibling loop, as the search method takes it: the child
      is searched with the current window, then the window narrows on the
      mover's side and the loop stops once it closes; a child that throws
      ends the loop. */
  lemma FoldStep<S, M, P>(x: Search<S, M, P>, s: S, ms: seq<M>, i: nat, alpha: Int32, beta: Int32, depth: int,
                          maximising: bool, best: Int32)
    requires i < |ms| && depth > 0
    ensures var r := ChildValue(x, s, ms, i, alpha, beta, depth, maximising);
      var n := ChildNodes(x, s, ms, i, alpha, beta, depth, maximising);
      && (r.None? ==> Fold(x, s, ms, i, alpha, beta, depth, maximising, best) == None
                      && FoldNodes(x, s, ms, i, alpha, beta, depth, maximising) == n)
      && (r.Some? ==>
            var v := r.value;
            var a, b := if maximising then Max(alpha, v) else alpha, if maximising then beta else Min(beta, v);
            var next := if maximising then Max(best, v) else Min(best, v);
            && Fold(x, s, ms, i, alpha, beta, depth, maximising, best)
                 == (if b <= a then Some(next) else Fold(x, s, ms, i + 1, a, b, depth, maximising, next))
            && FoldNodes(x, s, ms, i, alpha, beta, depth, maximising)
                 == n + (if b <= a then 0 else FoldNodes(x, s, ms, i + 1, a, b, depth, maximising)))
  {
  }

  /** `FoldStep` with the child's value and the updated window and best
      value given as plain arguments, as the search method holds them. */
  lemma FoldAdvance<S, M, P>(x: Search<S, M, P>, s: S, ms: seq<M>, i: nat, alpha: Int32, beta: Int32, depth: int,
                             maximising: bool, best: Int32, v: Int32, a: Int32, b: Int32, next: Int32)
    requires i < |ms| && depth > 0
    requires Some(v) == ChildValue(x, s, ms, i, alpha, beta, depth, maximising)
    requires a == (if maximising then Max(alpha, v) else alpha) && b == (if maximising then beta else Min(beta, v))
    requires next == (if maximising then Max(best, v) else Min(best, v))
    ensures b <= a ==> Fold(x, s, ms, i, alpha, beta, depth, maximising, best) == Some(next)
    ensures a < b ==> Fold(x, s, ms, i, alpha, beta, depth, maximising, best) == Fold(x, s, ms, i + 1, a, b, depth, maximising, next)
    ensures FoldNodes(x, s, ms, i, alpha, beta, depth, maximising)
            == ChildNodes(x, s, ms, i, alpha, beta, depth, maximising)
               + (if b <= a then 0 else FoldNodes(x, s, ms, i + 1, a, b, depth, maximising))
  {
    FoldStep(x, s, ms, i, alpha, beta, depth, maximising, best);
  }

  /** The fail-soft window property relating the true value `v` to the result
      `r` of a search with window (alpha, beta). */
  ghost predicate FailSoft(alpha: int, beta: int, v: int, r: int)
  {
    && (v <= alpha ==> v <= r <= alpha)
    && (alpha < v < beta ==> r == v)
    && (beta <= v ==> beta <= r <= v)
  }

  /** Window lemma: wherever plain minimax does not throw, neither does the
      pruned search, and inside the window it is exact; below the window the
      result lies between the true value and alpha, above it between beta and
      the true value. */
  lemma {:induction false} Window<S, M, P>(x: Search<S, M, P>, s: S, alpha: Int32, beta: Int32, depth: int, maximising: bool)
    requires alpha < beta
    requires Plain.Value(x, s, depth, maximising).Some?
    ensures Value(x, s, alpha, beta, depth, maximising).Some?
    ensures FailSoft(alpha, beta, Plain.Value(x, s, depth, maximising).value, Value(x, s, alpha, beta, depth, maximising).value)
    decreases Plain.Height(depth), 1, 0
  {
    if depth <= 0 || x.game.isTerminal(s) {
    } else if |x.game.moves(s)| == 0 {
      Window(x, x.game.handleNoMoves(s).Returned().value, alpha, beta, depth - 1, !maximising);
    } else if maximising {
      WindowMaxFold(x, s, x.game.moves(s), 0, alpha, beta, depth, MIN_VALUE);
    } else {
      WindowMinFold(x, s, x.game.moves(s), 0, alpha, beta, depth, MAX_VALUE);
    }
  }

  /** A child whose plain search succeeds has been made by `makeMove`. */
  lemma ChildMade<S, M, P>(x: Search<S, M, P>, s: S, ms: seq<M>, i: nat, depth: int, maximising: bool)
    requires i < |ms| && depth > 0
    requires Plain.ChildValue(x, s, ms, i, depth, maximising).Some?
    ensures x.Child(s, ms[i]).Ok?
    ensures Plain.ChildValue(x, s, ms, i, depth, maximising) == Plain.Value(x, x.Child(s, ms[i]).value, depth - 1, !maximising)
    ensures Plain.ChildNodes(x, s, ms, i, depth, maximising) == Plain.Nodes(x, x.Child(s, ms[i]).value, depth - 1, !maximising)
  {
  }

  lemma {:induction false} WindowMaxFold<S, M, P>(x: Search<S, M, P>, s: S, ms: seq<M>, i: nat, alpha: Int32, beta: Int32,
                                                  depth: int, best: Int32)
    requires i <= |ms| && depth > 0
    requires alpha < beta && best <= alpha
    requires Plain.Fold(x, s, ms, i, depth, true, best).Some?
    ensures Fold(x, s, ms, i, alpha, beta, depth, true, best).Some?
    ensures FailSoft(alpha, beta, Plain.Fold(x, s, ms, i, depth, true, best).value, Fold(x, s, ms, i, alpha, beta, depth, true, best).value)
    decreases Plain.Height(depth), 0, |ms| - i
  {
    if i < |ms| {
      ChildMade(x, s, ms, i, depth, true);
      var c := x.Child(s, ms[i]).value;
      var v := Plain.Value(x, c, depth - 1, false).value;
      Window(x, c, alpha, beta, depth - 1, false);
      var r := Value(x, c, alpha, beta, depth - 1, false).value;
      Plain.FoldShift(x, s, ms, i + 1, depth, true, Max(best, v));
      if Max(alpha, r) < beta {
        Plain.FoldShift(x, s, ms, i + 1, depth, true, Max(best, r));
        WindowMaxFold(x, s, ms, i + 1, Max(alpha, r), beta, depth, Max(best, r));
      }
    }
  }

  lemma {:induction false} WindowMinFold<S, M, P>(x: Search<S, M, P>, s: S, ms: seq<M>, i: nat, alpha: Int32, beta: Int32,
                                                  depth: int, best: Int32)
    requires i <= |ms| && depth > 0
    requires alpha < beta && best >= beta
    requires Plain.Fold(x, s, ms, i, depth, false, best).Some?
    ensures Fold(x, s, ms, i, alpha, beta, depth, false, best).Some?
    ensures FailSoft(alpha, beta, Plain.Fold(x, s, ms, i, depth, false, best).value, Fold(x, s, ms, i, alpha, beta, depth, false, best).value)
    decreases Plain.Height(depth), 0, |ms| - i
  {
    if i < |ms| {
      ChildMade(x, s, ms, i, depth, false);
      var c := x.Child(s, ms[i]).value;
      var v := Plain.Value(x, c, depth - 1, true).value;
      Window(x, c, alpha, beta, depth - 1, true);
      var r := Value(x, c, alpha, beta, depth - 1, true).value;
      Plain.FoldShift(x, s, ms, i + 1, depth, false, Min(best, v));
      if alpha < Min(beta, r) {
        Plain.FoldShift(x, s, ms, i + 1, depth, false, Min(best, r));
        WindowMinFold(x, s, ms, i + 1, alpha, Min(beta, r), depth, Min(best, r));
      }
    }
  }

  /** With the full window the pruned search returns the plain minimax value,
      whenever plain minimax does not throw. */
  lemma FullWindowIsMinimax<S, M, P>(x: Search<S, M, P>, s: S, depth: int, maximising: bool)
    requires Plain.Value(x, s, depth, maximising).Some?
    ensures Value(x, s, MIN_VALUE, MAX_VALUE, depth, maximising) == Plain.Value(x, s, depth, maximising)
  {
    Window(x, s, MIN_VALUE, MAX_VALUE, depth, maximising);
  }

  /** Pruning never explores more nodes than plain minimax, whatever the window. */
  lemma {:induction false} PruningExploresNoMore<S, M, P>(x: Search<S, M, P>, s: S, alpha: Int32, beta: Int32, depth: int, maximising: bool)
    requires Plain.Value(x, s, depth, maximising).Some?
    ensures Nodes(x, s, alpha, beta, depth, maximising) <= Plain.Nodes(x, s, depth, maximising)
    decreases Plain.Height(depth), 1, 0
  {
    if depth <= 0 || x.game.isTerminal(s) {
    } else if |x.game.moves(s)| == 0 {
      PruningExploresNoMore(x, x.game.handleNoMoves(s).Returned().value, alpha, beta, depth - 1, !maximising);
    } else {
      PruningFoldExploresNoMore(x, s, x.game.moves(s), 0, alpha, beta, depth, maximising,
                                if maximising then MIN_VALUE else MAX_VALUE);
    }
  }

  lemma {:induction false} PruningFoldExploresNoMore<S, M, P>(x: Search<S, M, P>, s: S, ms: seq<M>, i: nat, alpha: Int32, beta: Int32,
                                                              depth: int, maximising: bool, best: Int32)
    requires i <= |ms| && depth > 0
    requires Plain.Fold(x, s, ms, i, depth, maximising, best).Some?
    ensures FoldNodes(x, s, ms, i, alpha, beta, depth, maximising) <= Plain.FoldNodes(x, s, ms, i, depth, maximising)
    decreases Plain.Height(depth), 0, |ms| - i
  {
    if i < |ms| {
      ChildMade(x, s, ms, i, depth, maximising);
      var c := x.Child(s, ms[i]).value;
      var v := Plain.Value(x, c, depth - 1, !maximising).value;
      PruningExploresNoMore(x, c, alpha, beta, depth - 1, !maximising);
      var next := if maximising then Max(best, v) else Min(best, v);
      match Value(x, c, alpha, beta, depth - 1, !maximising)
      case None =>
      case Some(r) =>
        if maximising && Max(alpha, r) < beta {
          PruningFoldExploresNoMore(x, s, ms, i + 1, Max(alpha, r), beta, depth, maximising, next);
        } else if !maximising && alpha < Min(beta, r) {
          PruningFoldExploresNoMore(x, s, ms, i + 1, alpha, Min(beta, r), depth, maximising, next);
        }
    }
  }

  /** The successful results of the root searches: each root move's child
      searched from scratch with a fresh full window at `depth`, as
      minimiser; a search that throws leaves no result. */
  function RootResults<S, M, P>(x: Search<S, M, P>, s: S, moves: seq<M>, depth: int): (rs: seq<EvaluatedMove<M>>)
    requires forall k :: 0 <= k < |moves| ==> x.Child(s, moves[k]).Ok?
    ensures |rs| <= |moves|
    ensures forall k :: 0 <= k < |rs| ==> rs[k].move in moves
  {
    if moves == [] then []
    else
      var last := moves[|moves| - 1];
      RootResults(x, s, moves[..|moves| - 1], depth)
        + match Value(x, x.Child(s, last).value, MIN_VALUE, MAX_VALUE, depth, false)
          case Some(v) => [EvaluatedMove(last, v)]
          case None => []
  }

  function RootNodes<S, M, P>(x: Search<S, M, P>, s: S, moves: seq<M>, depth: int): nat
    requires forall k :: 0 <= k < |moves| ==> x.Child(s, moves[k]).Ok?
  {
    if moves == [] then 0
    else RootNodes(x, s, moves[..|moves| - 1], depth)
           + Nodes(x, x.Child(s, moves[|moves| - 1]).value, MIN_VALUE, MAX_VALUE, depth, false)
  }

  /** One more root move: its result, if its search succeeds, and its nodes
      are appended to those of the moves before it. */
  lemma RootStep<S, M, P>(x: Search<S, M, P>, s: S, moves: seq<M>, i: nat, depth: int, v: Option<Int32>)
    requires i < |moves| && forall k :: 0 <= k <= i ==> x.Child(s, moves[k]).Ok?
    requires v == Value(x, x.Child(s, moves[i]).value, MIN_VALUE, MAX_VALUE, depth, false)
    ensures RootResults(x, s, moves[..i + 1], depth)
            == RootResults(x, s, moves[..i], depth) + (if v.Some? then [EvaluatedMove(moves[i], v.value)] else [])
    ensures RootNodes(x, s, moves[..i + 1], depth)
            == RootNodes(x, s, moves[..i], depth) + Nodes(x, x.Child(s, moves[i]).value, MIN_VALUE, MAX_VALUE, depth, false)
  {
    assert moves[..i + 1][..i] == moves[..i];
  }

  /** Where no plain root search throws, the root results of both models at
      the same depth coincide. */
  lemma {:induction false} SameRootResults<S, M, P>(x: Search<S, M, P>, s: S, moves: seq<M>, depth: int)
    requires Plain.RootSearchesSucceed(x, s, moves, depth)
    ensures RootResults(x, s, moves, depth) == Plain.RootResults(x, s, moves, depth)
  {
    if moves != [] {
      var last := moves[|moves| - 1];
      assert Plain.RootSearchesSucceed(x, s, moves[..|moves| - 1], depth) by {
        assert forall k :: 0 <= k < |moves| - 1 ==> moves[..|moves| - 1][k] == moves[k];
      }
      SameRootResults(x, s, moves[..|moves| - 1], depth);
      FullWindowIsMinimax(x, x.Child(s, last).value, depth, false);
    }
  }

  /** The first strictly best move is determined by the results. */
  lemma FirstStrictlyBestUnique<M>(rs: seq<EvaluatedMove<M>>, b1: Option<M>, b2: Option<M>)
    requires FirstStrictlyBest(rs, b1) && FirstStrictlyBest(rs, b2)
    ensures b1 == b2
  {
    if !forall k :: 0 <= k < |rs| ==> rs[k].value == MIN_VALUE {
      var i :| 0 <= i < |rs| && IsFirstMaximum(rs, i) && b1 == Some(rs[i].move);
      var j :| 0 <= j < |rs| && IsFirstMaximum(rs, j) && b2 == Some(rs[j].move);
      assert !(i < j) && !(j < i);
    }
  }

  /** Both models pick the same root move when the alpha-beta model searches
      to the plain model's depth and no plain search throws. */
  lemma SameMoveAsMinimax<S, M, P>(x: Search<S, M, P>, s: S, moves: seq<M>, fromMinimax: Option<M>, fromAlphaBeta: Option<M>)
    requires Plain.RootSearchesSucceed(x, s, moves, Plain.MAX_DEPTH - 1)
    requires FirstStrictlyBest(Plain.RootResults(x, s, moves, Plain.MAX_DEPTH - 1), fromMinimax)
    requires FirstStrictlyBest(RootResults(x, s, moves, Plain.MAX_DEPTH - 1), fromAlphaBeta)
    ensures fromMinimax == fromAlphaBeta
  {
    SameRootResults(x, s, moves, Plain.MAX_DEPTH - 1);
    FirstStrictlyBestUnique(RootResults(x, s, moves, Plain.MAX_DEPTH - 1), fromMinimax, fromAlphaBeta);
  }

  /** The model's configurable settings. */
  datatype Settings<!S, !P> = Settings(maxDepth: Int32, threadCount: Int32, heuristic: Heuristic<S, P>,
                                       heuristicOption: ConfigOption<Heuristic<S, P>>)

  /** One step of `setOptions`. */
  function ApplyOption<S, P>(st: Settings<S, P>, o: ConfigOption<Heuristic<S, P>>): Result<Settings<S, P>>
  {
    if o.name == OPT_MAX_DEPTH then
      match AsInt32(o.value)
      case Ok(n) => Ok(st.(maxDepth := n))
      case Err(e) => Err(e)
    else if o.name == OPT_THREAD_COUNT then
      match AsInt32(o.value)
      case Ok(n) => if n <= 0 then Err(IllegalArgument) else Ok(st.(threadCount := n))   // rebuildExecutor
      case Err(e) => Err(e)
    else if o.name == OPT_HEURISTIC then
      if o.value.HeuristicValue? then Ok(st.(heuristic := o.value.h, heuristicOption := o))
      else Err(IllegalArgument)
    else Err(IllegalArgument)
  }

  ghost predicate Accepts<S, P>(o: ConfigOption<Heuristic<S, P>>)
  {
    || (o.name == OPT_MAX_DEPTH && o.value.IntValue?)
    || (o.name == OPT_THREAD_COUNT && o.value.IntValue? && o.value.i > 0)
    || (o.name == OPT_HEURISTIC && o.value.HeuristicValue?)
  }

  /** `setOptions` completes exactly when every option names a known setting
      with a value of the right type, and every thread count is positive; an
      unknown name, a Heuristic option whose value is not a heuristic, or a
      thread count the new pool refuses throws IllegalArgumentException. */
  lemma SetOptionsOutcome<S, P>(st: Settings<S, P>, options: seq<ConfigOption<Heuristic<S, P>>>)
    ensures ApplyAll(ApplyOption, st, options).outcome.Done? <==> forall k :: 0 <= k < |options| ==> Accepts(options[k])
    ensures forall o :: o in options && o.name != OPT_MAX_DEPTH && o.name != OPT_THREAD_COUNT && o.name != OPT_HEURISTIC ==>
      ApplyAll(ApplyOption, st, options).outcome.Failed?
    ensures forall o: ConfigOption<Heuristic<S, P>> :: o.name == OPT_HEURISTIC && !o.value.HeuristicValue? ==> ApplyOption(st, o) == Err(IllegalArgument)
    ensures forall o: ConfigOption<Heuristic<S, P>> :: o.name == OPT_THREAD_COUNT && o.value.IntValue? && o.value.i <= 0 ==>
      ApplyOption(st, o) == Err(IllegalArgument)
  {
    ApplyAllOutcome(ApplyOption, Accepts, st, options);
  }

  /** The root depth `maxDepth - 1` is an `int` subtraction: at
      `maxDepth == Integer.MIN_VALUE` it wraps to `Integer.MAX_VALUE`, and
      at every other depth it is the plain difference. */
  lemma RootDepthWraps(maxDepth: Int32)
    ensures maxDepth == MIN_VALUE ==> Wrap(maxDepth - 1) == MAX_VALUE
    ensures maxDepth != MIN_VALUE ==> Wrap(maxDepth - 1) == maxDepth - 1
  {
  }

  /** `new AlphaBetaMinimaxModel<>(maxPlayer, heuristic)` on a machine with
      `processors` processors: the field initialisers' pool of
      `processors - 3` threads throws IllegalArgumentException unless that
      count is positive. */
  method Create<S, M, P>(game: Game<S, M, P>, maxPlayer: P, heuristic: Heuristic<S, P>, processors: Int32)
    returns (r: Result<AlphaBetaMinimaxModel<S, M, P>>)
    ensures r.Err? <==> processors - 3 <= 0
    ensures r.Err? ==> r.error == IllegalArgument
    ensures r.Ok? ==> fresh(r.value) && r.value.game == game && r.value.maxPlayer == maxPlayer && r.value.heuristic == heuristic
                      && r.value.threadCount == processors - 3 && r.value.maxDepth == 3 && r.value.numNodesExplored == 0
  {
    if processors - 3 <= 0 {
      return Err(IllegalArgument);   // Executors.newFixedThreadPool(threadCount)
    }
    var model := new AlphaBetaMinimaxModel(game, maxPlayer, heuristic, processors);
    return Ok(model);
  }

  class AlphaBetaMinimaxModel<S, M, P> {
    const game: Game<S, M, P>
    const maxPlayer: P
    const processors: Int32   // Runtime.availableProcessors()
    var numNodesExplored: int
    var threadCount: Int32
    var maxDepth: Int32
    var heuristicOption: ConfigOption<Heuristic<S, P>>
    var heuristic: Heuristic<S, P>

    function Spec(): Search<S, M, P>
      reads this`heuristic
    {
      Search(game, heuristic, maxPlayer)
    }

    function Current(): Settings<S, P>
      reads this
    {
      Settings(maxDepth, threadCount, heuristic, heuristicOption)
    }

    /** The field initialisers build a pool of `processors - 3` threads,
        which `newFixedThreadPool` refuses unless it is positive; `Create`
        models the refusal. */
    constructor (game: Game<S, M, P>, maxPlayer: P, heuristic: Heuristic<S, P>, processors: Int32)
      requires processors - 3 > 0
      ensures this.game == game && this.maxPlayer == maxPlayer && this.processors == processors
      ensures this.heuristic == heuristic && maxDepth == 3 && threadCount == processors - 3
      ensures heuristicOption == ConfigOption(OPT_HEURISTIC, DESC_HEURISTIC, Dropdown, ObjectClass, HeuristicValue(heuristic),
                                              Null, Null, Some([ChoiceValue(heuristic.id, heuristic)]))
      ensures numNodesExplored == 0
    {
      this.game := game;
      this.maxPlayer := maxPlayer;
      this.processors := processors;
      threadCount := processors - 3;
      maxDepth := 3;
      heuristicOption := ConfigOption(OPT_HEURISTIC, DESC_HEURISTIC, Dropdown, ObjectClass, HeuristicValue(heuristic),
                                      Null, Null, Some([ChoiceValue(heuristic.id, heuristic)]));
      this.heuristic := heuristic;
      numNodesExplored := 0;
    }

    method Minimax(s: S, alpha: Int32, beta: Int32, depth: int, maximising: bool) returns (r: Option<Int32>)
      modifies this`numNodesExplored
      ensures r == Value(Spec(), s, alpha, beta, depth, maximising)
      ensures numNodesExplored == old(numNodesExplored) + Nodes(Spec(), s, alpha, beta, depth, maximising)
      decreases Plain.Height(depth), 1
    {
      var x := Spec();
      numNodesExplored := numNodesExplored + 1;
      if depth <= 0 || game.isTerminal(s) {
        return Some(x.Evaluate(s));
      }
      var moves := game.moves(s);
      if |moves| == 0 {
        var pass := game.handleNoMoves(s);
        if pass.Returned().Some? {
          r := Minimax(pass.Returned().value, alpha, beta, depth - 1, !maximising);
        } else {
          r := Some(x.Evaluate(pass.receiver));   // gameState, after the pass
        }
        return;
      }
      r := SearchMoves(x, s, moves, alpha, beta, depth, maximising);
    }

    /** The sibling loop of `minimax`: each child searched with the current
        window, a maximising node raising alpha and a minimising node
        lowering beta, until the window closes or a `makeMove` or a child
        search throws. */
    method SearchMoves(ghost x: Search<S, M, P>, s: S, moves: seq<M>, alpha: Int32, beta: Int32, depth: int, maximising: bool)
      returns (r: Option<Int32>)
      requires depth > 0 && x == Spec()
      modifies this`numNodesExplored
      ensures r == Fold(x, s, moves, 0, alpha, beta, depth, maximising, if maximising then MIN_VALUE else MAX_VALUE)
      ensures numNodesExplored == old(numNodesExplored) + FoldNodes(x, s, moves, 0, alpha, beta, depth, maximising)
      decreases Plain.Height(depth), 0
    {
      var a: Int32, b: Int32 := alpha, beta;
      var bestVal: Int32 := if maximising then MIN_VALUE else MAX_VALUE;
      ghost var value := Fold(x, s, moves, 0, alpha, beta, depth, maximising, bestVal);
      ghost var total := old(numNodesExplored) + FoldNodes(x, s, moves, 0, alpha, beta, depth, maximising);
      var i := 0;
      while i < |moves|
        invariant 0 <= i <= |moves|
        invariant Fold(x, s, moves, i, a, b, depth, maximising, bestVal) == value
        invariant numNodesExplored + FoldNodes(x, s, moves, i, a, b, depth, maximising) == total
      {
        ghost var a0, b0, best0 := a, b, bestVal;
        FoldStep(x, s, moves, i, a, b, depth, maximising, bestVal);
        var child := game.makeMove(s, moves[i]);
        if child.Err? {
          return None;
        }
        var val := Minimax(child.value, a, b, depth - 1, !maximising);
        if val.None? {
          return None;
        }
        if maximising {
          bestVal := Max(bestVal, val.value);
          a := Max(a, val.value);
        } else {
          bestVal := Min(bestVal, val.value);
          b := Min(b, val.value);
        }
        FoldAdvance(x, s, moves, i, a0, b0, depth, maximising, best0, val.value, a, b, bestVal);
        if b <= a {
          return Some(bestVal);
        }
        i := i + 1;
      }
      return Some(bestVal);
    }

    /** `getNextMove`: every root move is applied and its child searched with
        a fresh full window at `maxDepth - 1`, a 32-bit `int` subtraction, as
        minimiser; the first strictly best result wins, searches that throw
        being skipped. A root
        `makeMove` that throws leaves `getNextMove` with its exception, after
        the searches of the moves before it. */
    method GetNextMove(s: S, moves: seq<M>) returns (r: Result<Option<M>>)
      modifies this`numNodesExplored
      ensures var k := FirstRefused(game, s, moves);
        && numNodesExplored == old(numNodesExplored) + RootNodes(Spec(), s, moves[..k], Wrap(maxDepth - 1))
        && (k < |moves| ==> r == Err(game.makeMove(s, moves[k]).error))
        && (k == |moves| ==> r.Ok? && FirstStrictlyBest(RootResults(Spec(), s, moves, Wrap(maxDepth - 1)), r.value))
    {
      ghost var k := FirstRefused(game, s, moves);
      ghost var x, d := Spec(), Wrap(maxDepth - 1);
      ghost var before := old(numNodesExplored);
      var results: seq<EvaluatedMove<M>> := [];
      var i := 0;
      while i < |moves|
        invariant 0 <= i <= k && x == Spec() && d == Wrap(maxDepth - 1)
        invariant results == RootResults(x, s, moves[..i], d)
        invariant numNodesExplored == before + RootNodes(x, s, moves[..i], d)
      {
        var child := game.makeMove(s, moves[i]);
        if child.Err? {
          return Err(child.error);
        }
        var v := Minimax(child.value, MIN_VALUE, MAX_VALUE, Wrap(maxDepth - 1), false);
        RootStep(x, s, moves, i, d, v);
        if v.Some? {
          results := results + [EvaluatedMove(moves[i], v.value)];
        }
        i := i + 1;
      }
      assert moves[..|moves|] == moves;
      var best := SelectBestMove(results);
      return Ok(best);
    }

    function GetOptions(): (options: seq<ConfigOption<Heuristic<S, P>>>)
      reads this
      ensures |options| == 3
      ensures options[0].name == OPT_MAX_DEPTH && options[0].value == IntValue(maxDepth)
      ensures options[0].minValue == IntValue(1) && options[0].maxValue == IntValue(10)
      ensures options[1].name == OPT_THREAD_COUNT && options[1].value == IntValue(threadCount)
      ensures options[1].minValue == IntValue(1) && options[1].maxValue == IntValue(processors)
      ensures options[2] == heuristicOption
    {
      [ ConfigOption(OPT_MAX_DEPTH, DESC_MAX_DEPTH, Spinner, IntegerClass, IntValue(maxDepth), IntValue(1), IntValue(10), None),
        ConfigOption(OPT_THREAD_COUNT, DESC_THREAD_COUNT, Spinner, IntegerClass, IntValue(threadCount), IntValue(1), IntValue(processors), None),
        heuristicOption ]
    }

    /** `setOptions`: applies the options in order until one throws. */
    method SetOptions(options: seq<ConfigOption<Heuristic<S, P>>>) returns (outcome: Outcome)
      modifies this`maxDepth, this`threadCount, this`heuristic, this`heuristicOption
      ensures Applied(Current(), outcome) == ApplyAll(ApplyOption, old(Current()), options)
    {
      var i := 0;
      while i < |options|
        invariant 0 <= i <= |options|
        invariant ApplyAll(ApplyOption, Current(), options[i..]) == ApplyAll(ApplyOption, old(Current()), options)
      {
        var o := options[i];
        assert options[i..][1..] == options[i + 1..];
        if o.name == OPT_MAX_DEPTH {
          var n := AsInt32(o.value);
          if n.Err? { return Failed(n.error); }
          maxDepth := n.value;
        } else if o.name == OPT_THREAD_COUNT {
          var n := AsInt32(o.value);
          if n.Err? { return Failed(n.error); }
          if n.value <= 0 { return Failed(IllegalArgument); }   // rebuildExecutor
          threadCount := n.value;
        } else if o.name == OPT_HEURISTIC {
          if !o.value.HeuristicValue? { return Failed(IllegalArgument); }
          heuristic := o.value.h;
          heuristicOption := o;
        } else {
          return Failed(IllegalArgument);
        }
        i := i + 1;
      }
      return Done;
    }
  }
}
