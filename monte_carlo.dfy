/** Monte Carlo tree search (MonteCarloModel.java) over the node arena of
    MCTSNode. One iteration selects a node, expands it, takes its best child
    by UCB score, plays a random game out from that child and credits the
    outcome to every node from the child up to the root. Iterations run one
    after another, and an exception inside one ends that iteration only.

    `expand` turns untried moves into children until `makeMove` throws, and
    a playout passes on the state object of the node it starts from, so a
    node's state can change. When `makeMove` accepts every move of the
    root, `expand` uses up all untried moves at once, no node ever has both
    children and untried moves, and selection never leaves the root: the tree is the root
    and its children, and every completed iteration adds one visit to the
    root and one to exactly one child (ShallowTree). */
module MonteCarlo {
  import opened Common
  import opened GameTree
  import opened Options
  import opened MCTSNode

  const OPT_MAX_MOVES := "Maximum Moves"
  const OPT_ITERATIONS := "Iterations"
  const OPT_EXPLO_CONST := "Exploration Constant"
  const DESC_MAX_MOVES := "Number of moves simulated before becoming a draw"
  const DESC_EXPLORATION_CONSTANT := "Factor for exploration (high) or exploitation (low) on nodes, typically at sqrt(2)"
  const DESC_ITERATIONS := "Number of game simulations run for each move"

  // ---------------------------------------------------------------- scores

  /** A UCB score as a double: an unvisited child scores +infinity and the
      scan of the children starts from -infinity. */
  datatype Score = NegInf | Finite(x: real) | PosInf

  /** `a > b` on doubles. */
  predicate Above(a: Score, b: Score)
  {
    match a
    case NegInf => false
    case PosInf => !b.PosInf?
    case Finite(x) => b.NegInf? || (b.Finite? && x > b.x)
  }

  /** The exploitation-plus-exploration formula for a visited child, given
      the exploration constant, the child's total value, its visits and its
      parent's visits. */
  type Ucb = (real, int, nat, nat) -> real

  /** `calculateUCB(child)` for child `j` of node `i`. */
  function ChildScore<S, M>(ucb: Ucb, c: real, nodes: seq<Node<S, M>>, i: nat, j: nat): (r: Score)
    requires i < |nodes| && j < |nodes|
    ensures r.PosInf? <==> nodes[j].visits == 0
    ensures !r.NegInf?
  {
    if nodes[j].visits == 0 then PosInf
    else Finite(ucb(c, nodes[j].totalValue, nodes[j].visits, nodes[i].visits))
  }

  /** The scores of the children of `i`, in order. */
  function ChildScores<S, M>(ucb: Ucb, c: real, nodes: seq<Node<S, M>>, i: nat): (r: seq<Score>)
    requires WellFormed(nodes) && i < |nodes|
    ensures |r| == |nodes[i].children|
    ensures forall k :: 0 <= k < |r| ==> r[k] == ChildScore(ucb, c, nodes, i, nodes[i].children[k])
  {
    seq(|nodes[i].children|, k requires 0 <= k < |nodes[i].children| => ChildScore(ucb, c, nodes, i, nodes[i].children[k]))
  }

  /** `Above` is a strict total order. */
  lemma AboveIsStrictOrder(a: Score, b: Score, c: Score)
    ensures !Above(a, a)
    ensures Above(a, b) && !Above(c, b) ==> Above(a, c)
    ensures !Above(a, b) && !Above(b, a) ==> a == b
  {
  }

  // ------------------------------------------------------------ best child

  /** The `getBestChild` scan of children `cs` with scores `scores` from
      position `k` on, with `best` and `bestScore` the choice so far: a child
      replaces the choice only when it scores strictly higher. */
  function ScanBest(cs: seq<nat>, scores: seq<Score>, k: nat, best: Option<nat>, bestScore: Score): (r: Option<nat>)
    requires |cs| == |scores| && k <= |cs|
    ensures best.Some? ==> r.Some?
    ensures k < |cs| && bestScore.NegInf? && !scores[k].NegInf? ==> r.Some?
    ensures r.Some? ==> r == best || exists t :: k <= t < |cs| && r.value == cs[t]
    decreases |cs| - k
  {
    if k == |cs| then best
    else if Above(scores[k], bestScore) then ScanBest(cs, scores, k + 1, Some(cs[k]), scores[k])
    else ScanBest(cs, scores, k + 1, best, bestScore)
  }

  function BestChild<S, M>(ucb: Ucb, c: real, nodes: seq<Node<S, M>>, i: nat): Option<nat>
    requires WellFormed(nodes) && i < |nodes|
  {
    ScanBest(nodes[i].children, ChildScores(ucb, c, nodes, i), 0, None, NegInf)
  }

  /** Position `b` holds the first of the first `n` scores that none of them
      exceeds. */
  ghost predicate IsFirstBestUpTo(scores: seq<Score>, n: nat, b: nat)
    requires n <= |scores|
  {
    && b < n
    && (forall j :: 0 <= j < b ==> Above(scores[b], scores[j]))
    && (forall j :: 0 <= j < n ==> !Above(scores[j], scores[b]))
  }

  lemma {:induction false} ScanBestIsFirstBest(cs: seq<nat>, scores: seq<Score>, k: nat, best: Option<nat>, bestScore: Score, b: nat)
    requires |cs| == |scores| && k <= |cs|
    requires forall t :: 0 <= t < |scores| ==> !scores[t].NegInf?
    requires best.None? ==> k == 0 && bestScore == NegInf
    requires best.Some? ==> IsFirstBestUpTo(scores, k, b) && best == Some(cs[b]) && bestScore == scores[b]
    ensures var r := ScanBest(cs, scores, k, best, bestScore);
      && (r.None? <==> |cs| == 0)
      && (r.Some? ==> exists t: nat :: IsFirstBestUpTo(scores, |cs|, t) && r.value == cs[t])
    decreases |cs| - k
  {
    if k == |cs| {
      if best.Some? {
        assert IsFirstBestUpTo(scores, |cs|, b);
      }
    } else if Above(scores[k], bestScore) {
      forall j | 0 <= j < k
        ensures Above(scores[k], scores[j]) && !Above(scores[j], scores[k])
      {
        AboveIsStrictOrder(scores[k], bestScore, scores[j]);
        AboveIsStrictOrder(scores[j], scores[k], bestScore);
      }
      AboveIsStrictOrder(scores[k], scores[k], scores[k]);
      assert IsFirstBestUpTo(scores, k + 1, k);
      ScanBestIsFirstBest(cs, scores, k + 1, Some(cs[k]), scores[k], k);
    } else {
      assert best.Some?;
      assert IsFirstBestUpTo(scores, k + 1, b);
      ScanBestIsFirstBest(cs, scores, k + 1, best, bestScore, b);
    }
  }

  /** `getBestChild`: no child for a childless node; otherwise the first
      child whose score no sibling exceeds, which is the first unvisited
      child when there is one. */
  lemma BestChildProperties<S, M>(ucb: Ucb, c: real, nodes: seq<Node<S, M>>, i: nat)
    requires WellFormed(nodes) && i < |nodes|
    ensures var r, cs, scores := BestChild(ucb, c, nodes, i), nodes[i].children, ChildScores(ucb, c, nodes, i);
      && (r.None? <==> cs == [])
      && (r.Some? ==> exists b: nat :: IsFirstBestUpTo(scores, |cs|, b) && r.value == cs[b])
      && ((exists z :: 0 <= z < |cs| && nodes[cs[z]].visits == 0) ==>
            exists b :: 0 <= b < |cs| && r == Some(cs[b]) && nodes[cs[b]].visits == 0
                        && forall j :: 0 <= j < b ==> nodes[cs[j]].visits > 0)
  {
    var cs, scores := nodes[i].children, ChildScores(ucb, c, nodes, i);
    ScanBestIsFirstBest(cs, scores, 0, None, NegInf, 0);
    var r := BestChild(ucb, c, nodes, i);
    if z :| 0 <= z < |cs| && nodes[cs[z]].visits == 0 {
      var b: nat :| IsFirstBestUpTo(scores, |cs|, b) && r.value == cs[b];
      assert !Above(scores[z], scores[b]);
      assert nodes[cs[b]].visits == 0;
    }
  }

  // ---------------------------------------------------------------- select

  /** Where the `select` loop ends when started at node `cur`: it descends to
      the best child while the node has both children and untried moves. */
  ghost function SelectFrom<S, M>(ucb: Ucb, c: real, nodes: seq<Node<S, M>>, cur: nat): nat
    requires WellFormed(nodes) && cur < |nodes|
    decreases |nodes| - cur
  {
    if |nodes[cur].children| > 0 && |nodes[cur].untriedMoves| > 0 then
      var next := BestChild(ucb, c, nodes, cur).value;
      assert exists t :: 0 <= t < |nodes[cur].children| && next == nodes[cur].children[t];
      SelectFrom(ucb, c, nodes, next)
    else cur
  }

  /** No node has both children and untried moves. */
  ghost predicate Exclusive<S, M>(nodes: seq<Node<S, M>>)
  {
    forall i :: 0 <= i < |nodes| ==> nodes[i].children == [] || nodes[i].untriedMoves == []
  }

  /** Select never descends: when no node has both children and untried
      moves, it returns the node it starts from, the root in particular. */
  lemma SelectStaysPut<S, M>(ucb: Ucb, c: real, nodes: seq<Node<S, M>>, cur: nat)
    requires WellFormed(nodes) && Exclusive(nodes) && cur < |nodes|
    ensures SelectFrom(ucb, c, nodes, cur) == cur
  {
  }

  // --------------------------------------------------------- tree shape

  /** The tree is the root and its children: node 0's children are nodes 1,
      2, ... in order, and no other node has children. */
  ghost predicate Shallow<S, M>(nodes: seq<Node<S, M>>)
  {
    && |nodes| > 0
    && nodes[0].children == Range(1, |nodes| - 1)
    && forall j :: 0 < j < |nodes| ==> nodes[j].parent == Some(0) && nodes[j].children == []
  }

  /** Two arenas differ at most in visit counts and total values. */
  ghost predicate SameShape<S, M>(a: seq<Node<S, M>>, b: seq<Node<S, M>>)
  {
    && |a| == |b|
    && forall j :: 0 <= j < |a| ==>
         && a[j].state == b[j].state && a[j].parent == b[j].parent && a[j].children == b[j].children
         && a[j].moveMade == b[j].moveMade && a[j].untriedMoves == b[j].untriedMoves
  }

  lemma SameShapeKeepsStructure<S, M>(a: seq<Node<S, M>>, b: seq<Node<S, M>>)
    requires SameShape(a, b)
    ensures WellFormed(a) ==> WellFormed(b)
    ensures Exclusive(a) ==> Exclusive(b)
    ensures Shallow(a) ==> Shallow(b)
  {
    if WellFormed(a) {
      forall i, k | 0 <= i < |b| && 0 <= k < |b[i].children|
        ensures i < b[i].children[k] < |b| && b[b[i].children[k]].parent == Some(i)
      {
        assert a[i].children[k] == b[i].children[k];
      }
    }
  }

  /** Visits recorded in the whole arena. */
  function SumVisits<S, M>(nodes: seq<Node<S, M>>): nat
  {
    if nodes == [] then 0 else SumVisits(nodes[..|nodes| - 1]) + nodes[|nodes| - 1].visits
  }

  /** The root has been visited exactly as often as all other nodes together. */
  ghost predicate Balanced<S, M>(nodes: seq<Node<S, M>>)
  {
    |nodes| > 0 && 2 * nodes[0].visits == SumVisits(nodes)
  }

  /** Arenas that agree on visits up to the length of the shorter one, the
      longer one's extra nodes being unvisited, hold the same visits. */
  lemma {:induction false} SumVisitsPadded<S, M>(a: seq<Node<S, M>>, b: seq<Node<S, M>>)
    requires |a| <= |b|
    requires forall j :: 0 <= j < |a| ==> b[j].visits == a[j].visits
    requires forall j :: |a| <= j < |b| ==> b[j].visits == 0
    ensures SumVisits(b) == SumVisits(a)
    decreases |b|
  {
    if |b| > |a| {
      SumVisitsPadded(a, b[..|b| - 1]);
    } else if b != [] {
      SumVisitsPadded(a[..|a| - 1], b[..|b| - 1]);
    }
  }

  /** Replacing one node changes the total by the difference in its visits. */
  lemma {:induction false} SumVisitsUpdate<S, M>(nodes: seq<Node<S, M>>, j: nat, n: Node<S, M>)
    requires j < |nodes|
    ensures SumVisits(nodes[j := n]) == SumVisits(nodes) - nodes[j].visits + n.visits
    decreases |nodes|
  {
    var last := |nodes| - 1;
    if j < last {
      assert nodes[j := n][..last] == nodes[..last][j := n];
      SumVisitsUpdate(nodes[..last], j, n);
    } else {
      assert nodes[j := n][..last] == nodes[..last];
    }
  }

  /** Expanding the childless root of a shallow tree, when `makeMove` accepts
      every untried move, keeps it shallow and balanced: the new nodes are
      unvisited leaves, one per untried move, in order. */
  lemma ExpandRootKeepsShape<S, M, P>(game: Game<S, M, P>, before: seq<Node<S, M>>, after: seq<Node<S, M>>)
    requires WellFormed(before) && Shallow(before) && Balanced(before) && before[0].children == []
    requires Accepted(game, before, 0) == |before[0].untriedMoves|
    requires Expanded(game, before, after, 0)
    ensures WellFormed(after) && Grows(before, after)
    ensures Exclusive(after) && Shallow(after) && Balanced(after)
    ensures after[0].untriedMoves == [] && after[0].children == Range(1, |before[0].untriedMoves|)
    ensures forall k :: 0 <= k < |before[0].untriedMoves| ==> after[1 + k].moveMade == Some(before[0].untriedMoves[k])
  {
    var um := before[0].untriedMoves;
    ExpandedKeepsTree(game, before, after, 0);
    assert |before| == 1;
    forall j | 0 < j < |after|
      ensures after[j].parent == Some(0) && after[j].children == [] && after[j].visits == 0
    {
      assert after[1 + (j - 1)] == ChildFor(game, 0, before[0].state, um[j - 1]);
    }
    SumVisitsPadded(before, after);
  }

  // -------------------------------------------------------- backpropagation

  /** The nodes from `j` up to the root, following parents. */
  ghost function Path<S, M>(nodes: seq<Node<S, M>>, j: nat): seq<nat>
    requires WellFormed(nodes) && j < |nodes|
    decreases j
  {
    match nodes[j].parent
    case None => [j]
    case Some(p) => [j] + Path(nodes, p)
  }

  /** A path starts at its node, each next node is the parent of the one
      before, the last one has no parent, and the nodes strictly descend. */
  lemma {:induction false} PathShape<S, M>(nodes: seq<Node<S, M>>, j: nat)
    requires WellFormed(nodes) && j < |nodes|
    ensures var p := Path(nodes, j);
      && p[0] == j
      && (forall t :: 0 <= t < |p| ==> p[t] <= j)
      && (forall t :: 0 <= t < |p| - 1 ==> nodes[p[t]].parent == Some(p[t + 1]))
      && nodes[p[|p| - 1]].parent == None
      && (forall a, b :: 0 <= a < b < |p| ==> p[a] > p[b])
    decreases j
  {
    if nodes[j].parent.Some? {
      PathShape(nodes, nodes[j].parent.value);
    }
  }

  /** The facts the backpropagation walk needs about position `t` of a path:
      its node is new to the walk, and the next position holds its parent. */
  lemma PathNext<S, M>(nodes: seq<Node<S, M>>, j: nat, t: nat)
    requires WellFormed(nodes) && j < |nodes| && t < |Path(nodes, j)|
    ensures var p := Path(nodes, j);
      && p[t] < |nodes| && p[t] !in p[..t]
      && (t + 1 < |p| ==> nodes[p[t]].parent == Some(p[t + 1]))
      && (t + 1 == |p| ==> nodes[p[t]].parent == None)
  {
    PathShape(nodes, j);
    var p := Path(nodes, j);
    assert forall d :: d in p[..t] ==> d > p[t];
  }

  /** In a shallow tree a child's path is the child and the root. */
  lemma ShallowPath<S, M>(nodes: seq<Node<S, M>>, j: nat)
    requires WellFormed(nodes) && Shallow(nodes) && 0 < j < |nodes|
    ensures Path(nodes, j) == [j, 0]
  {
    assert Path(nodes, 0) == [0];
  }

  /** The score a playout earns: +1 when the root's player wins the final
      state, -1 when it loses, 0 on a draw, an absent result or a playout
      cut off before the end. */
  function PlayoutScore<S, M, P>(game: Game<S, M, P>, final: S, rootState: S): (score: int)
    ensures -1 <= score <= 1
    ensures score == 1 <==> game.isTerminal(final) && game.result(final, game.currentPlayer(rootState)) == Some(Win)
    ensures score == -1 <==> game.isTerminal(final) && game.result(final, game.currentPlayer(rootState)) == Some(Loss)
  {
    if !game.isTerminal(final) then 0
    else match game.result(final, game.currentPlayer(rootState))
      case Some(Win) => 1
      case Some(Loss) => -1
      case _ => 0
  }

  /** What a node is credited: the negated score when the player to move in
      its state has the root player's ID, the score otherwise. */
  function Reward<S, M, P>(game: Game<S, M, P>, rootState: S, s: S, score: int): int
  {
    if game.playerId(game.currentPlayer(s)) == game.playerId(game.currentPlayer(rootState)) then -score else score
  }

  function Credit<S, M, P>(game: Game<S, M, P>, rootState: S, n: Node<S, M>, score: int): Node<S, M>
  {
    n.(visits := n.visits + 1, totalValue := n.totalValue + Reward(game, rootState, n.state, score))
  }

  /** The arena after crediting `score` to the nodes in `path`. */
  ghost function Backpropagated<S, M, P>(game: Game<S, M, P>, nodes: seq<Node<S, M>>, path: seq<nat>, score: int): (r: seq<Node<S, M>>)
    requires |nodes| > 0
  {
    seq(|nodes|, j requires 0 <= j < |nodes| => if j in path then Credit(game, nodes[0].state, nodes[j], score) else nodes[j])
  }

  /** One step of the backpropagation walk along `path`: crediting the node
      at position `t`, not met before, extends the credited prefix by one. */
  lemma BackpropagatedStep<S, M, P>(game: Game<S, M, P>, before: seq<Node<S, M>>, path: seq<nat>, t: nat, score: int,
                                    prev: seq<Node<S, M>>, after: seq<Node<S, M>>)
    requires t < |path| && path[t] < |before| && path[t] !in path[..t]
    requires prev == Backpropagated(game, before, path[..t], score)
    requires after == Counted(prev, path[t], Reward(game, before[0].state, prev[path[t]].state, score))
    ensures after == Backpropagated(game, before, path[..t + 1], score)
    ensures after[path[t]].parent == before[path[t]].parent
  {
    var c := path[t];
    assert path[..t + 1] == path[..t] + [c];
    var next := Backpropagated(game, before, path[..t + 1], score);
    assert |after| == |next|;
    forall j | 0 <= j < |after|
      ensures after[j] == next[j]
    {
    }
  }

  lemma BackpropagatedNothing<S, M, P>(game: Game<S, M, P>, before: seq<Node<S, M>>, score: int)
    requires |before| > 0
    ensures Backpropagated(game, before, [], score) == before
  {
  }

  lemma BackpropagatedSameShape<S, M, P>(game: Game<S, M, P>, before: seq<Node<S, M>>, done: seq<nat>, score: int)
    requires |before| > 0
    ensures SameShape(before, Backpropagated(game, before, done, score))
    ensures Grows(before, Backpropagated(game, before, done, score))
  {
  }

  /** Crediting a child of the root and the root of a shallow, balanced tree
      keeps it balanced, with one more visit at the root. */
  lemma CreditChildKeepsBalance<S, M, P>(game: Game<S, M, P>, nodes: seq<Node<S, M>>, c: nat, score: int)
    requires Balanced(nodes) && 0 < c < |nodes|
    ensures Balanced(Backpropagated(game, nodes, [c, 0], score))
    ensures Backpropagated(game, nodes, [c, 0], score)[0].visits == nodes[0].visits + 1
  {
    var rs := nodes[0].state;
    var mid := nodes[c := Credit(game, rs, nodes[c], score)];
    assert Backpropagated(game, nodes, [c, 0], score) == mid[0 := Credit(game, rs, nodes[0], score)];
    SumVisitsUpdate(nodes, c, Credit(game, rs, nodes[c], score));
    SumVisitsUpdate(mid, 0, Credit(game, rs, nodes[0], score));
  }

  // -------------------------------------------------------------- playouts

  /** `t` can follow `s` in a playout: what passing makes of `s` when it has
      no moves, otherwise the result of one of its moves. */
  ghost predicate Step<S, M, P>(game: Game<S, M, P>, s: S, t: S)
  {
    if |game.moves(s)| == 0 then t == game.handleNoMoves(s).receiver
    else exists m :: m in game.moves(s) && game.makeMove(s, m) == Ok(t)
  }

  /** How a playout ends: at a terminal state or at the move limit, with its
      final state, or with an exception: a pass that returned `null`, on which
      the next loop test throws, or a move `makeMove` refused. */
  datatype Playout<S> = Finished(final: S) | NullPass | Refused(error: Error)

  // ------------------------------------------------------------- best move

  /** The total values of the root's children, in order. */
  function RootTotals<S, M>(nodes: seq<Node<S, M>>): (vals: seq<int>)
    requires WellFormed(nodes)
    ensures |vals| == |nodes[0].children|
    ensures forall k :: 0 <= k < |vals| ==> vals[k] == nodes[nodes[0].children[k]].totalValue
  {
    seq(|nodes[0].children|, k requires 0 <= k < |nodes[0].children| => nodes[nodes[0].children[k]].totalValue)
  }

  /** Position `k` holds the first of the first `n` values that is strictly
      greater than every value before it and no smaller than any of them. */
  ghost predicate IsFirstMax(vals: seq<int>, n: nat, k: nat)
    requires n <= |vals|
  {
    && k < n
    && (forall j :: 0 <= j < k ==> vals[j] < vals[k])
    && (forall j :: 0 <= j < n ==> vals[j] <= vals[k])
  }

  /** What `getBestMove` may return for a tree: with no root children a
      random move of the root state, which throws when there is none;
      otherwise the move of the first root child with strictly greatest
      total value. */
  ghost predicate IsBestMove<S, M, P>(game: Game<S, M, P>, nodes: seq<Node<S, M>>, r: Result<M>)
    requires WellFormed(nodes)
  {
    var cs, ms := nodes[0].children, game.moves(nodes[0].state);
    if cs == [] then
      (ms == [] ==> r == Err(IllegalArgument)) && (ms != [] ==> r.Ok? && r.value in ms)
    else
      exists k: nat :: IsFirstMax(RootTotals(nodes), |cs|, k) && r == Ok(nodes[cs[k]].moveMade.value)
  }

  // ------------------------------------------------------------- iteration

  /** `makeMove` accepts every untried move of the root. */
  ghost predicate RootAccepts<S, M, P>(game: Game<S, M, P>, nodes: seq<Node<S, M>>)
  {
    |nodes| > 0 && Accepted(game, nodes, 0) == |nodes[0].untriedMoves|
  }

  /** The tree `expand` leaves when called on node `i`: a terminal node or one
      with children stays as it is. */
  ghost predicate NodeExpanded<S, M, P>(game: Game<S, M, P>, before: seq<Node<S, M>>, after: seq<Node<S, M>>, i: nat)
    requires i < |before|
  {
    if game.isTerminal(before[i].state) || before[i].children != [] then after == before
    else Expanded(game, before, after, i)
  }

  /** The tree kept by the search: a tree that is only its root until the
      root has children. */
  ghost predicate SearchTree<S, M>(nodes: seq<Node<S, M>>)
  {
    WellFormed(nodes) && (nodes[0].children == [] ==> |nodes| == 1)
  }

  /** The search tree when `makeMove` accepts every move of the root: the
      root and its children, the root visited as often as its children
      together. */
  ghost predicate ShallowTree<S, M>(nodes: seq<Node<S, M>>)
  {
    SearchTree(nodes) && Exclusive(nodes) && Shallow(nodes) && Balanced(nodes)
  }

  /** What one iteration does to the tree: it stays a search tree and loses
      nothing, the root's state never changes, the root gains a visit exactly
      when the iteration completes, which needs root children, existing root
      children never change, and a childless, non-terminal root gets one
      child per untried move, in order, up to the first one `makeMove`
      refuses, which with the rest stay untried. */
  ghost predicate IterationEffect<S, M, P>(game: Game<S, M, P>, before: seq<Node<S, M>>, after: seq<Node<S, M>>, completed: bool)
  {
    && SearchTree(after) && Grows(before, after) && |before| > 0
    && after[0].state == before[0].state
    && after[0].visits == before[0].visits + (if completed then 1 else 0)
    && (completed ==> after[0].children != [])
    && (before[0].children != [] ==>
          after[0].children == before[0].children && after[0].untriedMoves == before[0].untriedMoves)
    && (before[0].children == [] && !game.isTerminal(before[0].state) ==>
          var um, k := before[0].untriedMoves, Accepted(game, before, 0);
          && after[0].untriedMoves == um[k..] && after[0].children == Range(1, k) && 1 + k <= |after|
          && forall t :: 0 <= t < k ==> after[1 + t].moveMade == Some(um[t]))
  }

  /** An iteration that stops after expanding node `i`. */
  lemma ExpansionEffect<S, M, P>(game: Game<S, M, P>, before: seq<Node<S, M>>, after: seq<Node<S, M>>, i: nat)
    requires SearchTree(before) && i < |before| && NodeExpanded(game, before, after, i)
    ensures IterationEffect(game, before, after, false)
  {
    if !(game.isTerminal(before[i].state) || before[i].children != []) {
      ExpandedKeepsTree(game, before, after, i);
      if i == 0 {
        var k := Accepted(game, before, 0);
        forall t | 0 <= t < k
          ensures after[1 + t].moveMade == Some(before[0].untriedMoves[t])
        {
          assert after[|before| + t] == ChildFor(game, 0, before[0].state, before[0].untriedMoves[t]);
        }
      }
    }
  }

  /** When `makeMove` accepts every untried move of the root, expanding the
      root of a shallow tree keeps it shallow, with nothing left untried. */
  lemma ShallowExpansion<S, M, P>(game: Game<S, M, P>, before: seq<Node<S, M>>, after: seq<Node<S, M>>)
    requires RootAccepts(game, before) && ShallowTree(before) && NodeExpanded(game, before, after, 0)
    ensures ShallowTree(after) && RootAccepts(game, after)
  {
    if !(game.isTerminal(before[0].state) || before[0].children != []) {
      ExpandRootKeepsShape(game, before, after);
    }
  }

  /** What the playout stage of an iteration does to the tree: it stays a
      search tree and loses nothing, the root keeps its state, children and
      untried moves, and gains a visit exactly when the stage completes. */
  ghost predicate PlayEffect<S, M>(before: seq<Node<S, M>>, after: seq<Node<S, M>>, completed: bool)
  {
    && SearchTree(after) && Grows(before, after) && |before| > 0
    && after[0].state == before[0].state
    && after[0].visits == before[0].visits + (if completed then 1 else 0)
    && after[0].children == before[0].children && after[0].untriedMoves == before[0].untriedMoves
  }

  /** The expansion stage followed by the playout stage of an iteration; a
      completed playout stage started from a node below the root, so the
      root has children. */
  lemma EffectsCompose<S, M, P>(game: Game<S, M, P>, before: seq<Node<S, M>>, mid: seq<Node<S, M>>, after: seq<Node<S, M>>, completed: bool)
    requires IterationEffect(game, before, mid, false) && PlayEffect(mid, after, completed)
    requires completed ==> |mid| > 1
    ensures IterationEffect(game, before, after, completed)
    ensures RootAccepts(game, mid) ==> RootAccepts(game, after)
  {
    GrowsTransitive(before, mid, after);
  }

  lemma PlayEffectTransitive<S, M>(a: seq<Node<S, M>>, b: seq<Node<S, M>>, c: seq<Node<S, M>>, completed: bool)
    requires PlayEffect(a, b, false) && PlayEffect(b, c, completed)
    ensures PlayEffect(a, c, completed)
  {
    GrowsTransitive(a, b, c);
  }

  /** A playout that changed the state of node `c`, a node other than the
      root, changes nothing else. */
  lemma RestateEffect<S, M>(nodes: seq<Node<S, M>>, c: nat, s: S)
    requires SearchTree(nodes) && 0 < c < |nodes|
    ensures PlayEffect(nodes, nodes[c := nodes[c].(state := s)], false)
    ensures ShallowTree(nodes) ==> ShallowTree(nodes[c := nodes[c].(state := s)])
  {
    var after := nodes[c := nodes[c].(state := s)];
    assert WellFormed(after) by {
      forall i, k | 0 <= i < |after| && 0 <= k < |after[i].children|
        ensures i < after[i].children[k] < |after| && after[after[i].children[k]].parent == Some(i)
      {
        assert after[i].children[k] == nodes[i].children[k];
      }
    }
    SumVisitsUpdate(nodes, c, after[c]);
  }

  /** Crediting node `c` and its ancestors adds one visit to the root. */
  lemma CreditEffect<S, M, P>(game: Game<S, M, P>, played: seq<Node<S, M>>, c: nat, score: int)
    requires SearchTree(played) && 0 < c < |played|
    ensures PlayEffect(played, Backpropagated(game, played, Path(played, c), score), true)
    ensures ShallowTree(played) ==> ShallowTree(Backpropagated(game, played, Path(played, c), score))
  {
    var path := Path(played, c);
    var after := Backpropagated(game, played, path, score);
    PathShape(played, c);
    assert 0 in path by {
      var last := path[|path| - 1];
      assert last == 0;
    }
    BackpropagatedSameShape(game, played, path, score);
    SameShapeKeepsStructure(played, after);
    if ShallowTree(played) {
      ShallowPath(played, c);
      CreditChildKeepsBalance(game, played, c, score);
    }
  }

  // --------------------------------------------------------------- options

  /** The model's configurable settings. */
  datatype Settings = Settings(maxMoves: Int32, explorationConstant: real, iterations: Int32)

  /** One step of `setOptions`. */
  function ApplyOption<H>(st: Settings, o: ConfigOption<H>): Result<Settings>
  {
    if o.name == OPT_MAX_MOVES then
      match AsInt32(o.value)
      case Ok(n) => Ok(st.(maxMoves := n))
      case Err(e) => Err(e)
    else if o.name == OPT_EXPLO_CONST then
      match AsReal(o.value)
      case Ok(d) => Ok(st.(explorationConstant := d))
      case Err(e) => Err(e)
    else if o.name == OPT_ITERATIONS then
      match AsInt32(o.value)
      case Ok(n) => Ok(st.(iterations := n))
      case Err(e) => Err(e)
    else Err(IllegalArgument)
  }

  ghost predicate Accepts<H>(o: ConfigOption<H>)
  {
    || (o.name == OPT_MAX_MOVES && o.value.IntValue?)
    || (o.name == OPT_EXPLO_CONST && o.value.DoubleValue?)
    || (o.name == OPT_ITERATIONS && o.value.IntValue?)
  }

  /** The options `getOptions` lists for the given settings. */
  function OptionsFor<H>(st: Settings): seq<ConfigOption<H>>
  {
    [ ConfigOption(OPT_MAX_MOVES, DESC_MAX_MOVES, Spinner, IntegerClass, IntValue(st.maxMoves), IntValue(10), IntValue(1000), None),
      ConfigOption(OPT_EXPLO_CONST, DESC_EXPLORATION_CONSTANT, Spinner, DoubleClass, DoubleValue(st.explorationConstant),
                   DoubleValue(0.1), DoubleValue(10.0), None),
      ConfigOption(OPT_ITERATIONS, DESC_ITERATIONS, Spinner, IntegerClass, IntValue(st.iterations), IntValue(1), IntValue(10000), None) ]
  }

  /** `setOptions` completes exactly when every option names a known setting
      with a value of the right type; an unknown name throws
      IllegalArgumentException. */
  lemma SetOptionsOutcome<H>(st: Settings, options: seq<ConfigOption<H>>)
    ensures ApplyAll(ApplyOption, st, options).outcome.Done? <==> forall k :: 0 <= k < |options| ==> Accepts(options[k])
    ensures forall o :: o in options && o.name != OPT_MAX_MOVES && o.name != OPT_EXPLO_CONST && o.name != OPT_ITERATIONS ==>
      ApplyAll(ApplyOption, st, options).outcome.Failed?
    ensures forall o: ConfigOption<H> :: o.name != OPT_MAX_MOVES && o.name != OPT_EXPLO_CONST && o.name != OPT_ITERATIONS ==>
      ApplyOption(st, o) == Err(IllegalArgument)
  {
    ApplyAllOutcome(ApplyOption, Accepts, st, options);
  }

  /** `copy`: setting a model's options from another model's `getOptions`
      reproduces that model's settings, whatever the first one had. */
  lemma CopyKeepsSettings<H>(st: Settings, other: Settings)
    ensures ApplyAll(ApplyOption, other, OptionsFor<H>(st)) == Applied(st, Done)
  {
    var os := OptionsFor<H>(st);
    var st1 := other.(maxMoves := st.maxMoves);
    var st2 := st1.(explorationConstant := st.explorationConstant);
    assert ApplyOption(other, os[0]) == Ok(st1);
    assert ApplyOption(st1, os[1]) == Ok(st2);
    assert ApplyOption(st2, os[2]) == Ok(st);
    assert os[1..][0] == os[1] && os[1..][1..][0] == os[2] && os[1..][1..][1..] == [];
    assert ApplyAll(ApplyOption, st, os[1..][1..][1..]) == Applied(st, Done);
    assert ApplyAll(ApplyOption, st2, os[1..][1..]) == Applied(st, Done);
    assert ApplyAll(ApplyOption, st1, os[1..]) == Applied(st, Done);
  }

  // ----------------------------------------------------------------- model

  class MonteCarloModel<S, M(==), P> {
    const game: Game<S, M, P>
    const ucb: Ucb
    var explorationConstant: real
    var maxMoves: Int32
    var iterations: Int32
    var rootNode: Tree?<S, M, P>

    /** The search tree, when there is one, is a well-formed arena over the
        model's game that is only its root until the root has children. */
    ghost predicate Valid()
      reads this, rootNode
    {
      rootNode != null ==> rootNode.game == game && SearchTree(rootNode.nodes)
    }

    function Current(): Settings
      reads this
    {
      Settings(maxMoves, explorationConstant, iterations)
    }

    constructor (game: Game<S, M, P>, ucb: Ucb)
      ensures this.game == game && this.ucb == ucb && rootNode == null
      ensures Current() == Settings(150, 1.41, 500)
    {
      this.game := game;
      this.ucb := ucb;
      explorationConstant := 1.41;
      maxMoves := 150;
      iterations := 500;
      rootNode := null;
    }

    /** `getBestChild(node)`. */
    method GetBestChild(i: nat) returns (best: Option<nat>)
      requires rootNode != null && WellFormed(rootNode.nodes) && i < |rootNode.nodes|
      ensures best == BestChild(ucb, explorationConstant, rootNode.nodes, i)
    {
      var nodes := rootNode.nodes;
      var cs := nodes[i].children;
      ghost var scores := ChildScores(ucb, explorationConstant, nodes, i);
      var bestScore := NegInf;
      best := None;
      var k := 0;
      while k < |cs|
        invariant k <= |cs|
        invariant ScanBest(cs, scores, k, best, bestScore) == BestChild(ucb, explorationConstant, nodes, i)
      {
        var score := ChildScore(ucb, explorationConstant, nodes, i, cs[k]);
        if Above(score, bestScore) {
          best := Some(cs[k]);
          bestScore := score;
        }
        k := k + 1;
      }
    }

    /** `select()`: from the root, descend to the best child while the node
        has both children and untried moves. */
    method Select() returns (cur: nat)
      requires rootNode != null && WellFormed(rootNode.nodes)
      ensures cur < |rootNode.nodes| && cur == SelectFrom(ucb, explorationConstant, rootNode.nodes, 0)
    {
      cur := 0;
      while |rootNode.nodes[cur].children| > 0 && |rootNode.nodes[cur].untriedMoves| > 0
        invariant cur < |rootNode.nodes|
        invariant SelectFrom(ucb, explorationConstant, rootNode.nodes, cur) == SelectFrom(ucb, explorationConstant, rootNode.nodes, 0)
        decreases |rootNode.nodes| - cur
      {
        var next := GetBestChild(cur);
        assert exists t :: 0 <= t < |rootNode.nodes[cur].children| && next.value == rootNode.nodes[cur].children[t];
        cur := next.value;
      }
    }

    /** `expand(node)`: a terminal node or one with children is left as it
        is; any other node is expanded, which throws when `makeMove` refuses
        one of its untried moves. */
    method Expand(i: nat) returns (outcome: Outcome)
      requires Valid() && rootNode != null && i < |rootNode.nodes|
      modifies rootNode
      ensures NodeExpanded(game, old(rootNode.nodes), rootNode.nodes, i)
      ensures var n, k := old(rootNode.nodes[i]), Accepted(game, old(rootNode.nodes), i);
        outcome == if game.isTerminal(n.state) || n.children != [] || k == |n.untriedMoves| then Done
                   else Failed(game.makeMove(n.state, n.untriedMoves[k]).error)
    {
      if game.isTerminal(rootNode.nodes[i].state) || rootNode.nodes[i].children != [] {
        return Done;
      }
      outcome := rootNode.Expand(i);
    }

    /** `simulate(node)`: a random playout of at most `maxMoves` steps from
        `start`, the state object of the node. `trace` holds the states it
        passes through. Passing changes the object it is called on and
        returns it, so while the playout has only passed, the node's own
        object is the one it plays on: `stored` is what the node's state has
        become, `trace[inPlace]`, the state after the leading passes. */
    method Simulate(start: S) returns (outcome: Playout<S>, stored: S, depth: nat, ghost trace: seq<S>, ghost inPlace: nat)
      ensures |trace| == depth + 1 && trace[0] == start
      ensures depth <= Max(maxMoves, 0)
      ensures forall j :: 0 <= j < depth ==> !game.isTerminal(trace[j]) && Step(game, trace[j], trace[j + 1])
      ensures forall j :: 0 <= j < depth && |game.moves(trace[j])| == 0 && (j + 1 < depth || !outcome.NullPass?) ==>
                game.handleNoMoves(trace[j]).returnsThis
      ensures outcome.Finished? ==> outcome.final == trace[depth] && (game.isTerminal(trace[depth]) || depth >= maxMoves)
      ensures outcome.NullPass? ==> depth > 0 && |game.moves(trace[depth - 1])| == 0 && !game.handleNoMoves(trace[depth - 1]).returnsThis
      ensures outcome.Refused? ==> && !game.isTerminal(trace[depth]) && depth < maxMoves
                                   && exists m :: m in game.moves(trace[depth]) && game.makeMove(trace[depth], m) == Err(outcome.error)
      ensures inPlace <= depth && stored == trace[inPlace]
      ensures forall j :: 0 <= j < inPlace ==> |game.moves(trace[j])| == 0
      ensures inPlace < depth ==> |game.moves(trace[inPlace])| > 0
    {
      var s := start;
      stored := start;
      var aliased := true;   // `s` is still the node's own object
      depth := 0;
      trace := [start];
      inPlace := 0;
      while !game.isTerminal(s) && depth < maxMoves
        invariant |trace| == depth + 1 && trace[0] == start && trace[depth] == s
        invariant depth <= Max(maxMoves, 0)
        invariant forall j :: 0 <= j < depth ==> !game.isTerminal(trace[j]) && Step(game, trace[j], trace[j + 1])
        invariant forall j :: 0 <= j < depth && |game.moves(trace[j])| == 0 ==> game.handleNoMoves(trace[j]).returnsThis
        invariant inPlace <= depth && stored == trace[inPlace]
        invariant forall j :: 0 <= j < inPlace ==> |game.moves(trace[j])| == 0
        invariant aliased <==> inPlace == depth
        invariant !aliased ==> |game.moves(trace[inPlace])| > 0
        decreases maxMoves - depth
      {
        var ms := game.moves(s);
        var next: S;
        if |ms| == 0 {
          var pass := game.handleNoMoves(s);
          next := pass.receiver;
          if aliased {
            stored := next;
            inPlace := inPlace + 1;
          }
          if !pass.returnsThis {
            return NullPass, stored, depth + 1, trace + [next], inPlace;
          }
        } else {
          var k :| 0 <= k < |ms|;
          var made := game.makeMove(s, ms[k]);
          assert ms[k] in ms;
          if made.Err? {
            return Refused(made.error), stored, depth, trace, inPlace;
          }
          next := made.value;
          aliased := false;
        }
        assert Step(game, s, next);
        s := next;
        trace := trace + [s];
        depth := depth + 1;
      }
      outcome := Finished(s);
    }

    /** `backpropagation(final, leaf)`: every node on the path from `leaf` up
        to the root gains one visit and its reward for the playout's score;
        no other node changes. */
    method Backpropagate(final: S, leaf: nat)
      requires rootNode != null && WellFormed(rootNode.nodes) && leaf < |rootNode.nodes|
      modifies rootNode
      ensures rootNode.nodes == Backpropagated(game, old(rootNode.nodes), old(Path(rootNode.nodes, leaf)),
                                               PlayoutScore(game, final, old(rootNode.nodes[0].state)))
    {
      var tree := rootNode;
      var rootState := tree.nodes[0].state;
      var score := PlayoutScore(game, final, rootState);
      ghost var before := tree.nodes;
      ghost var path := Path(before, leaf);
      ghost var t := 0;
      var cur: Option<nat> := Some(leaf);
      BackpropagatedNothing(game, before, score);
      assert Path(before, leaf)[0] == leaf;
      while cur.Some?
        invariant 0 <= t <= |path| && (cur.Some? <==> t < |path|)
        invariant t < |path| ==> cur == Some(path[t])
        invariant tree.nodes == Backpropagated(game, before, path[..t], score)
        decreases |path| - t
      {
        var c := cur.value;
        PathNext(before, leaf, t);
        ghost var prev := tree.nodes;
        var v := Reward(game, rootState, tree.nodes[c].state, score);
        tree.AddValue(c, v);
        BackpropagatedStep(game, before, path, t, score, prev, tree.nodes);
        cur := tree.nodes[c].parent;
        t := t + 1;
      }
      assert path[..t] == path;
    }

    /** `getBestMove()`. */
    method GetBestMove() returns (r: Result<M>)
      requires rootNode != null && WellFormed(rootNode.nodes)
      ensures IsBestMove(game, rootNode.nodes, r)
    {
      var nodes := rootNode.nodes;
      var cs := nodes[0].children;
      if cs == [] {
        var ms := game.moves(nodes[0].state);
        if ms == [] {
          return Err(IllegalArgument);   // nextInt(0)
        }
        var k :| 0 <= k < |ms|;
        return Ok(ms[k]);
      }
      ghost var vals := RootTotals(nodes);
      var highest: Option<int> := None;   // None is -infinity
      var bestMove: Option<M> := None;
      ghost var b: nat := 0;
      var k := 0;
      while k < |cs|
        invariant k <= |cs|
        invariant k == 0 <==> highest.None?
        invariant k > 0 ==> IsFirstMax(vals, k, b) && highest == Some(vals[b]) && bestMove == nodes[cs[b]].moveMade
      {
        if highest.None? || nodes[cs[k]].totalValue > highest.value {
          highest := Some(nodes[cs[k]].totalValue);
          bestMove := nodes[cs[k]].moveMade;
          b := k;
        }
        k := k + 1;
      }
      return Ok(bestMove.value);
    }

    /** The playout stage of an iteration, from node `c` below the root:
        simulate, whose passes on the node's state stay, then
        backpropagate, unless the playout throws. */
    method PlayOut(c: nat) returns (completed: bool)
      requires Valid() && rootNode != null && 0 < c < |rootNode.nodes|
      modifies rootNode
      ensures Valid() && PlayEffect(old(rootNode.nodes), rootNode.nodes, completed)
      ensures ShallowTree(old(rootNode.nodes)) ==> ShallowTree(rootNode.nodes)
    {
      var tree := rootNode;
      ghost var before := tree.nodes;
      var outcome, stored, depth, trace, inPlace := Simulate(tree.nodes[c].state);
      tree.SetState(c, stored);
      ghost var played := tree.nodes;
      RestateEffect(before, c, stored);
      if !outcome.Finished? {
        return false;
      }
      Backpropagate(outcome.final, c);
      CreditEffect(game, played, c, PlayoutScore(game, outcome.final, played[0].state));
      PlayEffectTransitive(before, played, tree.nodes, true);
      return true;
    }

    /** The expansion stage of an iteration: select a node and expand it. */
    method SelectAndExpand() returns (sel: nat, expansion: Outcome)
      requires Valid() && rootNode != null
      modifies rootNode
      ensures Valid() && sel < |rootNode.nodes| && IterationEffect(game, old(rootNode.nodes), rootNode.nodes, false)
      ensures RootAccepts(game, old(rootNode.nodes)) && ShallowTree(old(rootNode.nodes)) ==>
                RootAccepts(game, rootNode.nodes) && ShallowTree(rootNode.nodes)
    {
      ghost var before := rootNode.nodes;
      sel := Select();
      expansion := Expand(sel);
      ExpansionEffect(game, before, rootNode.nodes, sel);
      if RootAccepts(game, before) && ShallowTree(before) {
        SelectStaysPut(ucb, explorationConstant, before, 0);
        ShallowExpansion(game, before, rootNode.nodes);
      }
    }

    /** One iteration of `getNextMove`: select, expand, best child, simulate,
        backpropagate. An exception ends the iteration where it is thrown:
        in `expand`, on the missing best child, or in the playout. */
    method Iterate() returns (completed: bool)
      requires Valid() && rootNode != null
      modifies rootNode
      ensures Valid() && IterationEffect(game, old(rootNode.nodes), rootNode.nodes, completed)
      ensures RootAccepts(game, old(rootNode.nodes)) && ShallowTree(old(rootNode.nodes)) ==>
                RootAccepts(game, rootNode.nodes) && ShallowTree(rootNode.nodes)
    {
      var tree := rootNode;
      ghost var before := tree.nodes;
      var sel, expansion := SelectAndExpand();
      ghost var expanded := tree.nodes;
      if expansion.Failed? {
        return false;
      }
      var child := GetBestChild(sel);
      if child.None? {
        return false;   // simulate(null) throws
      }
      var c := child.value;
      assert sel < c < |expanded| by {
        var t :| 0 <= t < |expanded[sel].children| && c == expanded[sel].children[t];
      }
      completed := PlayOut(c);
      EffectsCompose(game, before, expanded, tree.nodes, completed);
    }

    /** `getNextMove(game, moves)`: a fresh tree rooted at `state` with the
        given moves untried, `iterations` iterations, then `getBestMove`. */
    method GetNextMove(state: S, moves: seq<M>) returns (r: Result<M>)
      modifies this`rootNode
      ensures rootNode != null && fresh(rootNode) && Valid()
      ensures rootNode.nodes[0].state == state && rootNode.nodes[0].visits <= Max(iterations, 0)
      ensures iterations >= 1 && !game.isTerminal(state) ==>
        var k := FirstRefused(game, state, moves);
        && rootNode.nodes[0].untriedMoves == moves[k..] && rootNode.nodes[0].children == Range(1, k) && 1 + k <= |rootNode.nodes|
        && forall t :: 0 <= t < k ==> rootNode.nodes[1 + t].moveMade == Some(moves[t])
      ensures FirstRefused(game, state, moves) == |moves| ==> ShallowTree(rootNode.nodes)
      ensures IsBestMove(game, rootNode.nodes, r)
    {
      rootNode := new Tree(game, state, moves);
      ghost var k := FirstRefused(game, state, moves);
      var i := 0;
      while i < iterations
        invariant rootNode != null && fresh(rootNode) && Valid()
        invariant k == |moves| ==> RootAccepts(game, rootNode.nodes) && ShallowTree(rootNode.nodes)
        invariant 0 <= i <= Max(iterations, 0) && rootNode.nodes[0].state == state && rootNode.nodes[0].visits <= i
        invariant i == 0 ==> rootNode.nodes[0].children == [] && rootNode.nodes[0].untriedMoves == moves
        invariant i >= 1 && !game.isTerminal(state) ==>
          && rootNode.nodes[0].untriedMoves == moves[k..] && rootNode.nodes[0].children == Range(1, k) && 1 + k <= |rootNode.nodes|
          && forall t :: 0 <= t < k ==> rootNode.nodes[1 + t].moveMade == Some(moves[t])
        modifies rootNode
      {
        ghost var before := rootNode.nodes;
        assert moves[0..] == moves;
        var completed := Iterate();
        i := i + 1;
      }
      r := GetBestMove();
    }

    function GetOptions<H>(): (options: seq<ConfigOption<H>>)
      reads this
      ensures |options| == 3
      ensures options[0].name == OPT_MAX_MOVES && options[0].value == IntValue(maxMoves)
      ensures options[0].minValue == IntValue(10) && options[0].maxValue == IntValue(1000)
      ensures options[1].name == OPT_EXPLO_CONST && options[1].value == DoubleValue(explorationConstant)
      ensures options[1].minValue == DoubleValue(0.1) && options[1].maxValue == DoubleValue(10.0)
      ensures options[2].name == OPT_ITERATIONS && options[2].value == IntValue(iterations)
      ensures options[2].minValue == IntValue(1) && options[2].maxValue == IntValue(10000)
    {
      OptionsFor(Current())
    }

    /** `setOptions`: applies the options in order until one throws. */
    method SetOptions<H>(options: seq<ConfigOption<H>>) returns (outcome: Outcome)
      modifies this`maxMoves, this`explorationConstant, this`iterations
      ensures Applied(Current(), outcome) == ApplyAll(ApplyOption, old(Current()), options)
    {
      var i := 0;
      while i < |options|
        invariant 0 <= i <= |options|
        invariant ApplyAll(ApplyOption, Current(), options[i..]) == ApplyAll(ApplyOption, old(Current()), options)
      {
        var o := options[i];
        assert options[i..][1..] == options[i + 1..];
        if o.name == OPT_MAX_MOVES {
          var n := AsInt32(o.value);
          if n.Err? { return Failed(n.error); }
          maxMoves := n.value;
        } else if o.name == OPT_EXPLO_CONST {
          var d := AsReal(o.value);
          if d.Err? { return Failed(d.error); }
          explorationConstant := d.value;
        } else if o.name == OPT_ITERATIONS {
          var n := AsInt32(o.value);
          if n.Err? { return Failed(n.error); }
          iterations := n.value;
        } else {
          return Failed(IllegalArgument);
        }
        i := i + 1;
      }
      outcome := Done;
    }
  }
}
