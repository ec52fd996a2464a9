/** Plain depth-limited minimax (MinimaxModel.java).

    `Value` is the value `minimax(state, depth, maximising)` returns, or `None`
    when the call throws: a `makeMove` that throws inside the search, or a
    player with no moves whose pass returns `null`, since the code recurses
    on `handleNoAvailableMoves()` without a null check. `Nodes` is how much
    the call adds to `numNodesExplored`, which every call increments once on
    entry. */
module Minimax {
  import opened Common
  import opened GameTree

  const MAX_DEPTH: int := 3

  /** Termination measure: the remaining depth, clipped at zero. */
  function Height(depth: int): nat
  {
    if depth <= 0 then 0 else depth
  }

  function Value<S, M, P>(x: Search<S, M, P>, s: S, depth: int, maximising: bool): Option<Int32>
    decreases Height(depth), 1, 0
  {
    if depth <= 0 || x.game.isTerminal(s) then Some(x.Evaluate(s))
    else if |x.game.moves(s)| == 0 then
      match x.game.handleNoMoves(s).Returned()
      case Some(next) => Value(x, next, depth - 1, !maximising)
      case None => None
    else Fold(x, s, x.game.moves(s), 0, depth, maximising, if maximising then MIN_VALUE else MAX_VALUE)
  }

  /** The value of child `k` of `s` when searching at `depth`: `None` when
      `makeMove` throws or the child's search does. */
  function ChildValue<S, M, P>(x: Search<S, M, P>, s: S, ms: seq<M>, k: nat, depth: int, maximising: bool): Option<Int32>
    requires k < |ms| && depth > 0
    decreases Height(depth), 0, 0
  {
    match x.Child(s, ms[k])
    case Err(_) => None
    case Ok(c) => Value(x, c, depth - 1, !maximising)
  }

  /** The sibling loop from move `i` on, with `best` the value so far. */
  function Fold<S, M, P>(x: Search<S, M, P>, s: S, ms: seq<M>, i: nat, depth: int, maximising: bool, best: Int32): Option<Int32>
    requires i <= |ms| && depth > 0
    decreases Height(depth), 0, |ms| - i
  {
    if i == |ms| then Some(best)
    else
      match ChildValue(x, s, ms, i, depth, maximising)
      case None => None
      case Some(v) => Fold(x, s, ms, i + 1, depth, maximising, if maximising then Max(best, v) else Min(best, v))
  }

  function Nodes<S, M, P>(x: Search<S, M, P>, s: S, depth: int, maximising: bool): nat
    decreases Height(depth), 1, 0
  {
    1 + if depth <= 0 || x.game.isTerminal(s) then 0
        else if |x.game.moves(s)| == 0 then
          match x.game.handleNoMoves(s).Returned()
          case Some(next) => Nodes(x, next, depth - 1, !maximising)
          case None => 1   // the call on the null state counts itself, then throws
        else FoldNodes(x, s, x.game.moves(s), 0, depth, maximising)
  }

  /** Nodes counted by the search of child `k`; none when `makeMove` throws. */
  function ChildNodes<S, M, P>(x: Search<S, M, P>, s: S, ms: seq<M>, k: nat, depth: int, maximising: bool): nat
    requires k < |ms| && depth > 0
    decreases Height(depth), 0, 0
  {
    match x.Child(s, ms[k])
    case Err(_) => 0
    case Ok(c) => Nodes(x, c, depth - 1, !maximising)
  }

  /** Nodes counted by the sibling loop from move `i` on; a child that throws ends it. */
  function FoldNodes<S, M, P>(x: Search<S, M, P>, s: S, ms: seq<M>, i: nat, depth: int, maximising: bool): nat
    requires i <= |ms| && depth > 0
    decreases Height(depth), 0, |ms| - i
  {
    if i == |ms| then 0
    else
      ChildNodes(x, s, ms, i, depth, maximising)
        + if ChildValue(x, s, ms, i, depth, maximising).None? then 0 else FoldNodes(x, s, ms, i + 1, depth, maximising)
  }

  /** One turn of the sibling loop: a failed child ends the fold, and
      otherwise its value updates the best value before the next move. */
  lemma FoldAdvance<S, M, P>(x: Search<S, M, P>, s: S, ms: seq<M>, i: nat, depth: int, maximising: bool, best: Int32,
                             val: Option<Int32>)
    requires i < |ms| && depth > 0
    requires val == ChildValue(x, s, ms, i, depth, maximising)
    ensures val.None? ==> Fold(x, s, ms, i, depth, maximising, best) == None
    ensures val.None? ==> FoldNodes(x, s, ms, i, depth, maximising) == ChildNodes(x, s, ms, i, depth, maximising)
    ensures val.Some? ==> Fold(x, s, ms, i, depth, maximising, best)
                          == Fold(x, s, ms, i + 1, depth, maximising, if maximising then Max(best, val.value) else Min(best, val.value))
    ensures val.Some? ==> FoldNodes(x, s, ms, i, depth, maximising)
                          == ChildNodes(x, s, ms, i, depth, maximising) + FoldNodes(x, s, ms, i + 1, depth, maximising)
  {
  }

  /** The sibling loop that succeeds has searched every child successfully, and
      its result is the maximum (or minimum) of `best` and all child values. */
  lemma {:induction false} FoldIsExtremum<S, M, P>(x: Search<S, M, P>, s: S, ms: seq<M>, i: nat, depth: int, maximising: bool, best: Int32)
    requires i <= |ms| && depth > 0
    requires Fold(x, s, ms, i, depth, maximising, best).Some?
    ensures forall k :: i <= k < |ms| ==> ChildValue(x, s, ms, k, depth, maximising).Some?
    ensures var r := Fold(x, s, ms, i, depth, maximising, best).value;
      && (maximising ==> r >= best && forall k :: i <= k < |ms| ==> ChildValue(x, s, ms, k, depth, maximising).value <= r)
      && (!maximising ==> r <= best && forall k :: i <= k < |ms| ==> ChildValue(x, s, ms, k, depth, maximising).value >= r)
      && (r == best || exists k :: i <= k < |ms| && ChildValue(x, s, ms, k, depth, maximising).value == r)
    decreases |ms| - i
  {
    if i < |ms| {
      var v := ChildValue(x, s, ms, i, depth, maximising).value;
      var next := if maximising then Max(best, v) else Min(best, v);
      FoldIsExtremum(x, s, ms, i + 1, depth, maximising, next);
      var r := Fold(x, s, ms, i, depth, maximising, best).value;
      assert r == Fold(x, s, ms, i + 1, depth, maximising, next).value;
      if r != best {
        if r == next {
          assert ChildValue(x, s, ms, i, depth, maximising).value == r;
        } else {
          var k :| i + 1 <= k < |ms| && ChildValue(x, s, ms, k, depth, maximising).value == r;
        }
      }
    }
  }

  /** A maximising node that succeeds returns the largest child value, a
      minimising node the smallest. */
  lemma NodeIsExtremum<S, M, P>(x: Search<S, M, P>, s: S, depth: int, maximising: bool)
    requires depth > 0 && !x.game.isTerminal(s) && |x.game.moves(s)| > 0
    requires Value(x, s, depth, maximising).Some?
    ensures var ms, r := x.game.moves(s), Value(x, s, depth, maximising).value;
      && (forall k :: 0 <= k < |ms| ==> ChildValue(x, s, ms, k, depth, maximising).Some?)
      && (maximising ==> forall k :: 0 <= k < |ms| ==> ChildValue(x, s, ms, k, depth, maximising).value <= r)
      && (!maximising ==> forall k :: 0 <= k < |ms| ==> ChildValue(x, s, ms, k, depth, maximising).value >= r)
      && (exists k :: 0 <= k < |ms| && ChildValue(x, s, ms, k, depth, maximising).value == r)
  {
    var ms := x.game.moves(s);
    var neutral: Int32 := if maximising then MIN_VALUE else MAX_VALUE;
    FoldIsExtremum(x, s, ms, 0, depth, maximising, neutral);
    if Value(x, s, depth, maximising).value == neutral {
      // every child is bounded by the neutral value, so the first one equals it
      assert ChildValue(x, s, ms, 0, depth, maximising).value == neutral;
    }
  }

  /** Starting the sibling loop from another `best` only combines it with the
      result from the neutral start; success does not depend on it. */
  lemma {:induction false} FoldShift<S, M, P>(x: Search<S, M, P>, s: S, ms: seq<M>, i: nat, depth: int, maximising: bool, best: Int32)
    requires i <= |ms| && depth > 0
    ensures var neutral := Fold(x, s, ms, i, depth, maximising, if maximising then MIN_VALUE else MAX_VALUE);
      var shifted := Fold(x, s, ms, i, depth, maximising, best);
      && (shifted.Some? <==> neutral.Some?)
      && (shifted.Some? ==> shifted.value == if maximising then Max(best, neutral.value) else Min(best, neutral.value))
    decreases |ms| - i
  {
    if i < |ms| {
      var c := ChildValue(x, s, ms, i, depth, maximising);
      if c.Some? {
        var v := c.value;
        FoldShift(x, s, ms, i + 1, depth, maximising, if maximising then Max(best, v) else Min(best, v));
        FoldShift(x, s, ms, i + 1, depth, maximising, if maximising then Max(MIN_VALUE, v) else Min(MAX_VALUE, v));
      }
    }
  }

  /** The successful results of the root searches, in submission order: each
      root move's child is searched at `depth` as minimiser; a search that
      throws leaves no result. `getNextMove` reaches the searches only when
      every root move applies. */
  function RootResults<S, M, P>(x: Search<S, M, P>, s: S, moves: seq<M>, depth: int): (rs: seq<EvaluatedMove<M>>)
    requires forall k :: 0 <= k < |moves| ==> x.Child(s, moves[k]).Ok?
    ensures |rs| <= |moves|
    ensures forall k :: 0 <= k < |rs| ==> rs[k].move in moves
  {
    if moves == [] then []
    else
      var last := moves[|moves| - 1];
      RootResults(x, s, moves[..|moves| - 1], depth)
        + match Value(x, x.Child(s, last).value, depth, false)
          case Some(v) => [EvaluatedMove(last, v)]
          case None => []
  }

  /** Nodes counted by the root searches. */
  function RootNodes<S, M, P>(x: Search<S, M, P>, s: S, moves: seq<M>, depth: int): nat
    requires forall k :: 0 <= k < |moves| ==> x.Child(s, moves[k]).Ok?
  {
    if moves == [] then 0
    else RootNodes(x, s, moves[..|moves| - 1], depth) + Nodes(x, x.Child(s, moves[|moves| - 1]).value, depth, false)
  }

  /** One more root move: its result, if its search succeeds, and its nodes
      are appended to those of the moves before it. */
  lemma RootStep<S, M, P>(x: Search<S, M, P>, s: S, moves: seq<M>, i: nat, depth: int, v: Option<Int32>)
    requires i < |moves| && forall k :: 0 <= k <= i ==> x.Child(s, moves[k]).Ok?
    requires v == Value(x, x.Child(s, moves[i]).value, depth, false)
    ensures RootResults(x, s, moves[..i + 1], depth)
            == RootResults(x, s, moves[..i], depth) + (if v.Some? then [EvaluatedMove(moves[i], v.value)] else [])
    ensures RootNodes(x, s, moves[..i + 1], depth) == RootNodes(x, s, moves[..i], depth) + Nodes(x, x.Child(s, moves[i]).value, depth, false)
  {
    assert moves[..i + 1][..i] == moves[..i];
  }

  /** Every root move applies and the search of its child does not throw. */
  ghost predicate RootSearchesSucceed<S, M, P>(x: Search<S, M, P>, s: S, moves: seq<M>, depth: int)
  {
    forall k :: 0 <= k < |moves| ==> x.Child(s, moves[k]).Ok? && Value(x, x.Child(s, moves[k]).value, depth, false).Some?
  }

  /** When no root search throws, every root move has a result, in order. */
  lemma {:induction false} RootResultsComplete<S, M, P>(x: Search<S, M, P>, s: S, moves: seq<M>, depth: int)
    requires RootSearchesSucceed(x, s, moves, depth)
    ensures |RootResults(x, s, moves, depth)| == |moves|
    ensures forall k :: 0 <= k < |moves| ==>
      RootResults(x, s, moves, depth)[k] == EvaluatedMove(moves[k], Value(x, x.Child(s, moves[k]).value, depth, false).value)
  {
    if moves != [] {
      var init, last := moves[..|moves| - 1], moves[|moves| - 1];
      assert forall k :: 0 <= k < |init| ==> init[k] == moves[k];
      RootResultsComplete(x, s, init, depth);
      var v := Value(x, x.Child(s, last).value, depth, false);
      assert v.Some?;
      var rs, ri := RootResults(x, s, moves, depth), RootResults(x, s, init, depth);
      assert rs == ri + [EvaluatedMove(last, v.value)];
      forall k | 0 <= k < |moves|
        ensures rs[k] == EvaluatedMove(moves[k], Value(x, x.Child(s, moves[k]).value, depth, false).value)
      {
        if k < |init| {
          assert rs[k] == ri[k] && moves[k] == init[k];
        }
      }
    }
  }

  class MinimaxModel<S, M, P> {
    const search: Search<S, M, P>
    var numNodesExplored: int

    constructor (game: Game<S, M, P>, maxPlayer: P, heuristic: Heuristic<S, P>)
      ensures search == Search(game, heuristic, maxPlayer)
      ensures numNodesExplored == 0
    {
      search := Search(game, heuristic, maxPlayer);
      numNodesExplored := 0;
    }

    /** `minimax(gameState, depth, maxPlayer)`; `None` when it throws. */
    method Minimax(s: S, depth: int, maximising: bool) returns (r: Option<Int32>)
      modifies this`numNodesExplored
      ensures r == Value(search, s, depth, maximising)
      ensures numNodesExplored == old(numNodesExplored) + Nodes(search, s, depth, maximising)
      decreases Height(depth), 1
    {
      numNodesExplored := numNodesExplored + 1;
      if depth <= 0 || search.game.isTerminal(s) {
        return Some(search.Evaluate(s));
      }
      var moves := search.game.moves(s);
      if |moves| == 0 {
        var next := search.game.handleNoMoves(s).Returned();
        if next.None? {
          // minimax(null, ...) counts itself, then dereferences null
          numNodesExplored := numNodesExplored + 1;
          return None;
        }
        r := Minimax(next.value, depth - 1, !maximising);
        return;
      }
      r := SearchMoves(s, moves, depth, maximising);
    }

    /** The sibling loop of `minimax`: each move's child searched in turn,
        keeping the largest (maximising) or smallest value; a `makeMove` or a
        child search that throws ends the loop. */
    method SearchMoves(s: S, moves: seq<M>, depth: int, maximising: bool) returns (r: Option<Int32>)
      requires depth > 0
      modifies this`numNodesExplored
      ensures r == Fold(search, s, moves, 0, depth, maximising, if maximising then MIN_VALUE else MAX_VALUE)
      ensures numNodesExplored == old(numNodesExplored) + FoldNodes(search, s, moves, 0, depth, maximising)
      decreases Height(depth), 0
    {
      var bestVal: Int32 := if maximising then MIN_VALUE else MAX_VALUE;
      var i := 0;
      while i < |moves|
        invariant 0 <= i <= |moves|
        invariant Fold(search, s, moves, i, depth, maximising, bestVal)
                  == Fold(search, s, moves, 0, depth, maximising, if maximising then MIN_VALUE else MAX_VALUE)
        invariant numNodesExplored + FoldNodes(search, s, moves, i, depth, maximising)
                  == old(numNodesExplored) + FoldNodes(search, s, moves, 0, depth, maximising)
      {
        var child := search.game.makeMove(s, moves[i]);
        if child.Err? {
          FoldAdvance(search, s, moves, i, depth, maximising, bestVal, None);
          return None;
        }
        var val := Minimax(child.value, depth - 1, !maximising);
        FoldAdvance(search, s, moves, i, depth, maximising, bestVal, val);
        if val.None? {
          return None;
        }
        bestVal := if maximising then Max(bestVal, val.value) else Min(bestVal, val.value);
        i := i + 1;
      }
      return Some(bestVal);
    }

    /** `getNextMove`, on a machine with `processors` processors: a pool of
        `processors - 2` threads, which Java refuses with
        IllegalArgumentException when that is not positive; then every root
        move is applied and its child searched, and the first strictly best
        result is kept, searches that throw being skipped. A root `makeMove`
        that throws leaves `getNextMove` with its exception, after the
        searches of the moves before it. */
    method GetNextMove(s: S, moves: seq<M>, processors: int) returns (r: Result<Option<M>>)
      modifies this`numNodesExplored
      ensures processors - 2 <= 0 ==> r == Err(IllegalArgument) && numNodesExplored == old(numNodesExplored)
      ensures processors - 2 > 0 ==>
        var k := FirstRefused(search.game, s, moves);
        && numNodesExplored == old(numNodesExplored) + RootNodes(search, s, moves[..k], MAX_DEPTH - 1)
        && (k < |moves| ==> r == Err(search.Child(s, moves[k]).error))
        && (k == |moves| ==> r.Ok? && FirstStrictlyBest(RootResults(search, s, moves, MAX_DEPTH - 1), r.value))
    {
      if processors - 2 <= 0 {
        return Err(IllegalArgument);   // newFixedThreadPool(processors - 2)
      }
      ghost var k := FirstRefused(search.game, s, moves);
      var results: seq<EvaluatedMove<M>> := [];
      var i := 0;
      while i < |moves|
        invariant 0 <= i <= k
        invariant results == RootResults(search, s, moves[..i], MAX_DEPTH - 1)
        invariant numNodesExplored == old(numNodesExplored) + RootNodes(search, s, moves[..i], MAX_DEPTH - 1)
      {
        var child := search.game.makeMove(s, moves[i]);
        if child.Err? {
          return Err(child.error);
        }
        var v := Minimax(child.value, MAX_DEPTH - 1, false);
        RootStep(search, s, moves, i, MAX_DEPTH - 1, v);
        if v.Some? {
          results := results + [EvaluatedMove(moves[i], v.value)];
        }
        i := i + 1;
      }
      assert moves[..|moves|] == moves;
      var best := SelectBestMove(results);
      return Ok(best);
    }
  }
}
