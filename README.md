# Hive on a modular game framework, in Dafny

This project models the core of a Java framework for turn-based board games
and its implementation of the game Hive. Everything is Dafny 4.11. Every
file is given to the verifier together; there is no executable entry point.

**Search layer.** A game is the `GameTree.Game` record of functions: moves,
the move function, terminal test, turn passing, result and the player to
move. A heuristic scores a state for the maximising player.
- `makeMove` may throw, as `HiveGame` does for an invalid move; it returns a
  `Result`. `handleNoAvailableMoves` changes its receiver in place and
  returns it, or `null`; `GameTree.Pass` holds both the changed receiver and
  which of the two it returned.
- `Minimax` models `MinimaxModel`: depth-limited minimax with a node counter.
  A child search that throws (a refused move, or a pass to `null`) has no
  value; the root loop drops it, as the Java code drops a failed future. A
  refused root move ends `getNextMove` with its exception.
- `AlphaBeta` models `AlphaBetaMinimaxModel`: fail-soft alpha-beta. Wherever
  plain minimax succeeds, the full window gives the same value, it never
  visits more nodes, and at the default depth both models choose the same
  move. Its options are depth, thread count and heuristic.
- `MCTSNode` and `MonteCarlo` model `MCTSNode` and `MonteCarloModel`. The
  tree is a sequence of node records addressed by index, with parent links.
  Selection uses UCB. Expansion adds one child per untried move until
  `makeMove` refuses one. Playouts are bounded by `maxMoves`, and their
  passes change the stored state of the node they start from.
  Backpropagation credits the path to the root. An iteration that throws
  stops where it is, as the Java code catches and prints the exception.
  When every root move is accepted, the tree stays the root and its
  children, balanced. Options are maximum moves, exploration constant and
  iterations.
- `SearchScenarios` proves what both minimax models compute on small concrete trees.

**Hive.**
- `HexGrid`: cube coordinates, with `q + r + s == 0` enforced by a subset
  type. Distance, the six directions and neighbours.
- `MapStorage`: the key/value store behind the board.
- `HiveBoard`: `HiveBoardState` is a class over a store whose values are
  stacks of tiles, with the top tile last. The logical board is the
  value `map<Hex, seq<HiveTile>>`.
- `Hands`, `HivePlayers`, `FrameworkPlayer`: the two `HivePlayer` classes.
  The Player ID option belongs to the one in `HivePlayers`.
- `HiveReach`, `HiveRuleEngine`, `HiveMoves`: the rule engine.
  - Free sliding, the grasshopper's hop, queen and beetle steps.
  - The placement search and the one-hive connectivity search. These are
    breadth-first searches with visited sets.
  - The spider's depth-three walk and the soldier ant's flood fill.
- `HiveGames`: `HiveGame` covers turns, available moves, validation,
  making a move, the terminal test and the result.
- `HiveHeuristics`: `BasicHeuristic`. It adds four terms with 32-bit
  wrap-around: win or lose, the two queens' surround scores and the
  stuck/buried pieces score. It has twelve options.
- `HiveConfig`: `HiveGameConfig` covers player set-up, the merge of
  insertion-ordered options, the rebuilt heuristic dropdown and forwarding
  options to an AI player's model.
- `GameLogs`: `GameLog`'s CSV row and its map of AI players.

Shared pieces:
- `Common`: `Option`/`Result`, Java's exceptions as an `Error` datatype, and
  32-bit wrap-around.
- `Options`: the option objects and the "apply options in order, stop at the
  first failure" loop that every `setOptions` shares.
- `Folds`: sums and multiset unions over sets of hexes.

**What is a parameter instead of an input.**
- Randomness is a nondeterministic choice (`:|`) inside the method that uses
  it. This covers the random start tile of the two searches, the move
  shuffle, the random playout moves and `getRandomPiece`.
- The thread pool of the two minimax models is a sequential loop over the
  root moves. The MCTS pool runs its iterations one after another.
- `Runtime.availableProcessors()` is a `processors` argument. A pool size
  that is not positive is `IllegalArgumentException`, as
  `Executors.newFixedThreadPool` throws.
- The UCB formula is a parameter, `ucb`, because it is floating point.
- The UUID, the dates and each result's text in `GameLog` are given.
  The duration is whole seconds.
- An exception is an `Err` value or a `Failed` outcome naming its Java class.
  A Java `null` is `None` or Dafny's `null`.
- Java `int` arithmetic in the heuristic wraps explicitly, via
  `Common.Wrap`. Java's `/` and `%` truncate, via `GameLogs.JavaDiv` and
  `GameLogs.JavaRem`.

The paths below are relative to the repository root, under
`src/main/java/io/github/finnperera/playmodular/initialframework/`.

## Model

| member | source | states |
|---|---|---|
| GameTree.SelectBestMove | src/main/java/io/github/finnperera/playmodular/initialframework/AIModels/Minimax/MinimaxModel.java:42-56 | the chosen move is the first one whose value is strictly above every earlier value and above `Integer.MIN_VALUE`; no move when no value beats `Integer.MIN_VALUE` |
| GameTree.FirstRefused | src/main/java/io/github/finnperera/playmodular/initialframework/AIModels/Minimax/MinimaxModel.java:33-36 | the position of the first move `makeMove` refuses: every earlier move is accepted, and the move there is refused, or the count of moves when none is |
| GameTree.Pass.Returned | src/main/java/io/github/finnperera/playmodular/initialframework/HiveGame.java:200-208 | the pass returns its receiver, changed in place, exactly when it returns `this`, and `null` otherwise |
| Minimax.FoldIsExtremum | src/main/java/io/github/finnperera/playmodular/initialframework/AIModels/Minimax/MinimaxModel.java:75-86 | a successful max (min) fold over the moves is at least (at most) its start value, bounds every child value, and equals the start value or some child value |
| Minimax.NodeIsExtremum | src/main/java/io/github/finnperera/playmodular/initialframework/AIModels/Minimax/MinimaxModel.java:64-90 | the value of a non-terminal node with moves is the largest (smallest) child value for the maximising (minimising) side, and some child attains it |
| Minimax.RootResultsComplete | src/main/java/io/github/finnperera/playmodular/initialframework/AIModels/Minimax/MinimaxModel.java:28-57 | when every child search succeeds, the root list holds one evaluated move per move, in order, each valued by minimax at depth `MAX_DEPTH - 1` with the opponent to move |
| Minimax.RootStep | src/main/java/io/github/finnperera/playmodular/initialframework/AIModels/Minimax/MinimaxModel.java:33-55 | one more root move appends its result, when its search does not throw, and its node count to those of the moves before it |
| Minimax.RootResults | src/main/java/io/github/finnperera/playmodular/initialframework/AIModels/Minimax/MinimaxModel.java:34-55 | every listed result belongs to one of the given moves, and there are no more results than moves; a child search that throws leaves no result |
| Minimax.MinimaxModel.constructor | src/main/java/io/github/finnperera/playmodular/initialframework/AIModels/Minimax/MinimaxModel.java:21-25 | the model holds the game, player and heuristic, and the node counter starts at 0 |
| Minimax.MinimaxModel.Minimax | src/main/java/io/github/finnperera/playmodular/initialframework/AIModels/Minimax/MinimaxModel.java:64-90 | returns the minimax value of the state, none when a `makeMove` reached throws or a player with no moves passes to `null`, and adds the nodes visited, the `null` one included, to the counter |
| Minimax.MinimaxModel.SearchMoves | src/main/java/io/github/finnperera/playmodular/initialframework/AIModels/Minimax/MinimaxModel.java:75-89 | scans the moves in order, keeping the best (maximiser) or worst (minimiser) child value; fails as soon as `makeMove` or a child search throws; adds the visits of the children searched to the counter |
| Minimax.MinimaxModel.GetNextMove | src/main/java/io/github/finnperera/playmodular/initialframework/AIModels/Minimax/MinimaxModel.java:28-57 | with `processors - 2` not positive, `IllegalArgumentException` and no node visited; otherwise the searches of the root moves before the first one `makeMove` refuses are counted, that refusal's exception is returned, and when no root move is refused the result is the first strictly best move over the child searches that did not throw |
| AlphaBeta.Window | src/main/java/io/github/finnperera/playmodular/initialframework/AIModels/Minimax/AlphaBetaMinimaxModel.java:84-121 | fail-soft: below the window the result is at most alpha and at least the true value, above it at least beta and at most the true value, and inside it equal to the true minimax value |
| AlphaBeta.FullWindowIsMinimax | src/main/java/io/github/finnperera/playmodular/initialframework/AIModels/Minimax/AlphaBetaMinimaxModel.java:84-121 | with the full window `(Integer.MIN_VALUE, Integer.MAX_VALUE)` alpha-beta returns exactly the plain minimax value |
| AlphaBeta.PruningExploresNoMore | src/main/java/io/github/finnperera/playmodular/initialframework/AIModels/Minimax/AlphaBetaMinimaxModel.java:84-121 | alpha-beta never visits more nodes than plain minimax on the same state and depth |
| AlphaBeta.FoldStep | src/main/java/io/github/finnperera/playmodular/initialframework/AIModels/Minimax/AlphaBetaMinimaxModel.java:102-117 | one step of the move loop: the child value updates the best value and the window, and the loop stops once beta <= alpha |
| AlphaBeta.SameRootResults | src/main/java/io/github/finnperera/playmodular/initialframework/AIModels/Minimax/AlphaBetaMinimaxModel.java:55-82 | when every plain child search succeeds, the alpha-beta root results equal the plain minimax ones |
| AlphaBeta.SameMoveAsMinimax | src/main/java/io/github/finnperera/playmodular/initialframework/AIModels/Minimax/AlphaBetaMinimaxModel.java:55-82 | at the three-ply default, alpha-beta and plain minimax choose the same move |
| AlphaBeta.FirstStrictlyBestUnique | src/main/java/io/github/finnperera/playmodular/initialframework/AIModels/Minimax/AlphaBetaMinimaxModel.java:67-81 | the first strictly best move of a result list is unique |
| AlphaBeta.RootResults | src/main/java/io/github/finnperera/playmodular/initialframework/AIModels/Minimax/AlphaBetaMinimaxModel.java:57-65 | every listed result belongs to one of the given moves, and there are no more results than moves; a child search that throws leaves no result |
| AlphaBeta.RootStep | src/main/java/io/github/finnperera/playmodular/initialframework/AIModels/Minimax/AlphaBetaMinimaxModel.java:59-65 | one more root move appends its result, when its full-window search does not throw, and its node count to those of the moves before it |
| AlphaBeta.ChildMade | src/main/java/io/github/finnperera/playmodular/initialframework/AIModels/Minimax/AlphaBetaMinimaxModel.java:102-104 | a child whose plain search succeeds was made by `makeMove`, and its value and node count are those of the search of that state |
| AlphaBeta.RootDepthWraps | src/main/java/io/github/finnperera/playmodular/initialframework/AIModels/Minimax/AlphaBetaMinimaxModel.java:63 | the root depth `maxDepth - 1` wraps to `Integer.MAX_VALUE` at `maxDepth == Integer.MIN_VALUE`, and is the plain difference otherwise |
| AlphaBeta.Create | src/main/java/io/github/finnperera/playmodular/initialframework/AIModels/Minimax/AlphaBetaMinimaxModel.java:25-47 | construction on a machine with `processors` processors throws `IllegalArgumentException` exactly when `processors - 3` is not positive, and otherwise gives a fresh model with depth 3, `processors - 3` threads and a zero counter |
| AlphaBeta.SetOptionsOutcome | src/main/java/io/github/finnperera/playmodular/initialframework/AIModels/Minimax/AlphaBetaMinimaxModel.java:143-165 | setting options completes exactly when every option names a known setting with a value of its type and every thread count is positive; an unknown name always fails; a non-heuristic Heuristic value and a thread count of 0 or less, which the new pool refuses, throw `IllegalArgumentException` |
| AlphaBeta.AlphaBetaMinimaxModel.constructor | src/main/java/io/github/finnperera/playmodular/initialframework/AIModels/Minimax/AlphaBetaMinimaxModel.java:25-47 | for a machine whose `processors - 3` is positive: depth 3, `processors - 3` threads, the given heuristic, a dropdown option offering just that heuristic, and a zero node counter |
| AlphaBeta.AlphaBetaMinimaxModel.Minimax | src/main/java/io/github/finnperera/playmodular/initialframework/AIModels/Minimax/AlphaBetaMinimaxModel.java:84-121 | returns the alpha-beta value of the state for the window, none when a `makeMove` reached throws; a player with no moves whose pass gives `null` is scored on the passed state; adds the nodes visited to the counter |
| AlphaBeta.AlphaBetaMinimaxModel.SearchMoves | src/main/java/io/github/finnperera/playmodular/initialframework/AIModels/Minimax/AlphaBetaMinimaxModel.java:100-120 | scans the moves in order, narrowing the window after each child and stopping once it closes or a `makeMove` or child search throws; returns the best value seen; the visits added are those of the children searched |
| AlphaBeta.AlphaBetaMinimaxModel.GetNextMove | src/main/java/io/github/finnperera/playmodular/initialframework/AIModels/Minimax/AlphaBetaMinimaxModel.java:55-82 | the full-window searches at `maxDepth - 1`, a 32-bit subtraction that wraps, of the root moves before the first one `makeMove` refuses are counted, that refusal's exception is returned, and when no root move is refused the result is the first strictly best move over the searches that did not throw |
| AlphaBeta.AlphaBetaMinimaxModel.GetOptions | src/main/java/io/github/finnperera/playmodular/initialframework/AIModels/Minimax/AlphaBetaMinimaxModel.java:133-139 | three options: maximum depth 1..10, thread count 1..processors, and the current heuristic option |
| AlphaBeta.AlphaBetaMinimaxModel.SetOptions | src/main/java/io/github/finnperera/playmodular/initialframework/AIModels/Minimax/AlphaBetaMinimaxModel.java:143-165 | the settings after the call and the outcome are those of applying the options in order, stopping at the first one that throws, a thread count of 0 or less included |
| Options.AsInt32 | src/main/java/io/github/finnperera/playmodular/initialframework/AIModels/Minimax/AlphaBetaMinimaxModel.java:147-150 | the `(Integer)` cast: an integer value passes, null throws `NullPointerException` on unboxing, anything else `ClassCastException` |
| Options.AsReal | src/main/java/io/github/finnperera/playmodular/initialframework/AIModels/MonteCarloTreeSearch/MonteCarloModel.java:216-232 | the `(Double)` cast: a double passes, null throws `NullPointerException`, anything else `ClassCastException` |
| Options.ApplyAllOutcome | src/main/java/io/github/finnperera/playmodular/initialframework/AIModels/Minimax/AlphaBetaMinimaxModel.java:143-165 | an options loop ends normally exactly when every option is accepted; otherwise it stops at the first rejected option and reports that option's error on the state reached so far |
| MCTSNode.NewNode | src/main/java/io/github/finnperera/playmodular/initialframework/AIModels/MonteCarloTreeSearch/MCTSNode.java:19-27 | a new node has no visits, no value, no children, and the given state, parent, untried moves and move |
| MCTSNode.AttachChildKeepsTree | src/main/java/io/github/finnperera/playmodular/initialframework/AIModels/MonteCarloTreeSearch/MCTSNode.java:29-35 | attaching a child to a node keeps the parent links well formed and only grows the tree |
| MCTSNode.CountedKeepsTree | src/main/java/io/github/finnperera/playmodular/initialframework/AIModels/MonteCarloTreeSearch/MCTSNode.java:37-40 | crediting a node adds one visit there and leaves every other node unchanged |
| MCTSNode.ExpandedIsPartlyExpanded | src/main/java/io/github/finnperera/playmodular/initialframework/AIModels/MonteCarloTreeSearch/MCTSNode.java:29-35 | expansion is the same as adding one child per untried move, in order, up to the first one `makeMove` refuses |
| MCTSNode.ExpandedKeepsTree | src/main/java/io/github/finnperera/playmodular/initialframework/AIModels/MonteCarloTreeSearch/MCTSNode.java:29-35 | expansion, up to the first refused move, keeps the tree well formed and only grows it |
| MCTSNode.ExpandNothingIsIdentity | src/main/java/io/github/finnperera/playmodular/initialframework/AIModels/MonteCarloTreeSearch/MCTSNode.java:29-35 | expanding a node with no untried moves changes nothing |
| MCTSNode.Tree.constructor | src/main/java/io/github/finnperera/playmodular/initialframework/AIModels/MonteCarloTreeSearch/MCTSNode.java:19-27 | the tree is one root node for the given state and untried moves |
| MCTSNode.Tree.Expand | src/main/java/io/github/finnperera/playmodular/initialframework/AIModels/MonteCarloTreeSearch/MCTSNode.java:29-35 | each untried move, in order, up to the first one `makeMove` refuses, becomes a child holding the state after that move and leaves the untried list; the outcome is that refusal's exception, or success when there is none |
| MCTSNode.Tree.SetState | src/main/java/io/github/finnperera/playmodular/initialframework/HiveGame.java:200-208 | a pass made on a node's state object changes that node's state and nothing else |
| MCTSNode.Tree.AddValue | src/main/java/io/github/finnperera/playmodular/initialframework/AIModels/MonteCarloTreeSearch/MCTSNode.java:37-40 | one visit more and the value added, on that node only |
| MonteCarlo.ChildScore | src/main/java/io/github/finnperera/playmodular/initialframework/AIModels/MonteCarloTreeSearch/MonteCarloModel.java:195-204 | an unvisited child scores positive infinity, and no child scores negative infinity |
| MonteCarlo.AboveIsStrictOrder | src/main/java/io/github/finnperera/playmodular/initialframework/AIModels/MonteCarloTreeSearch/MonteCarloModel.java:85-102 | the comparison of UCB scores is irreflexive, transitive with its complement, and total |
| MonteCarlo.ScanBestIsFirstBest | src/main/java/io/github/finnperera/playmodular/initialframework/AIModels/MonteCarloTreeSearch/MonteCarloModel.java:85-102 | the child scan returns nothing only for a leaf, and otherwise the first child whose score no earlier child beats |
| MonteCarlo.BestChildProperties | src/main/java/io/github/finnperera/playmodular/initialframework/AIModels/MonteCarloTreeSearch/MonteCarloModel.java:85-102 | best child: none for a leaf, else the first best by UCB score; when some child is unvisited, the first unvisited child |
| MonteCarlo.SelectStaysPut | src/main/java/io/github/finnperera/playmodular/initialframework/AIModels/MonteCarloTreeSearch/MonteCarloModel.java:74-83 | when no node has both children and untried moves, selection stays at the node it starts from |
| MonteCarlo.PathShape | src/main/java/io/github/finnperera/playmodular/initialframework/AIModels/MonteCarloTreeSearch/MonteCarloModel.java:135-162 | the path from a node follows parent links with strictly decreasing indices to the root |
| MonteCarlo.ShallowPath | src/main/java/io/github/finnperera/playmodular/initialframework/AIModels/MonteCarloTreeSearch/MonteCarloModel.java:135-162 | in a tree of depth one the path from a child is the child then the root |
| MonteCarlo.PlayoutScore | src/main/java/io/github/finnperera/playmodular/initialframework/AIModels/MonteCarloTreeSearch/MonteCarloModel.java:135-162 | the playout score is +1 exactly for a terminal win of the root player, -1 exactly for a terminal loss, and 0 otherwise |
| MonteCarlo.BackpropagatedStep | src/main/java/io/github/finnperera/playmodular/initialframework/AIModels/MonteCarloTreeSearch/MonteCarloModel.java:135-162 | crediting the next node of the path extends the backpropagation by one node and keeps its parent |
| MonteCarlo.CreditChildKeepsBalance | src/main/java/io/github/finnperera/playmodular/initialframework/AIModels/MonteCarloTreeSearch/MonteCarloModel.java:135-162 | crediting a child and the root keeps the root's visits equal to the sum of its children's, one visit more |
| MonteCarlo.ExpandRootKeepsShape | src/main/java/io/github/finnperera/playmodular/initialframework/AIModels/MonteCarloTreeSearch/MonteCarloModel.java:104-112 | when `makeMove` accepts every move of the fresh root, expanding it gives one child per move, in order, with indices 1..n, and a balanced tree of depth one |
| MonteCarlo.ExpansionEffect | src/main/java/io/github/finnperera/playmodular/initialframework/AIModels/MonteCarloTreeSearch/MonteCarloModel.java:47-50 | an iteration that stops after the expansion keeps the search tree, leaves the root's visits alone and, on a childless live root, adds one child per move up to the first refused one |
| MonteCarlo.ShallowExpansion | src/main/java/io/github/finnperera/playmodular/initialframework/AIModels/MonteCarloTreeSearch/MonteCarloModel.java:104-112 | when every root move is accepted, expanding the root of a depth-one balanced tree keeps it so |
| MonteCarlo.EffectsCompose | src/main/java/io/github/finnperera/playmodular/initialframework/AIModels/MonteCarloTreeSearch/MonteCarloModel.java:47-52 | the expansion stage followed by the playout stage has the effect of one iteration, which completes only below a root with children |
| MonteCarlo.RestateEffect | src/main/java/io/github/finnperera/playmodular/initialframework/AIModels/MonteCarloTreeSearch/MonteCarloModel.java:114-122 | a pass made in place on the state of a node below the root changes nothing the iteration promises about the root, and keeps the tree shape |
| MonteCarlo.CreditEffect | src/main/java/io/github/finnperera/playmodular/initialframework/AIModels/MonteCarloTreeSearch/MonteCarloModel.java:135-162 | crediting a node below the root and its ancestors adds exactly one visit to the root, keeps its children and untried moves, and keeps a depth-one tree balanced |
| MonteCarlo.SetOptionsOutcome | src/main/java/io/github/finnperera/playmodular/initialframework/AIModels/MonteCarloTreeSearch/MonteCarloModel.java:216-232 | setting options succeeds exactly when every option is accepted; an unknown name always fails with `IllegalArgumentException` |
| MonteCarlo.CopyKeepsSettings | src/main/java/io/github/finnperera/playmodular/initialframework/AIModels/MonteCarloTreeSearch/MonteCarloModel.java:207-232 | applying one model's own option list to any settings reproduces that model's settings, with every option accepted |
| MonteCarlo.MonteCarloModel.constructor | src/main/java/io/github/finnperera/playmodular/initialframework/AIModels/MonteCarloTreeSearch/MonteCarloModel.java:29-35 | 150 simulated moves, exploration constant 1.41, 500 iterations, no root yet |
| MonteCarlo.MonteCarloModel.GetBestChild | src/main/java/io/github/finnperera/playmodular/initialframework/AIModels/MonteCarloTreeSearch/MonteCarloModel.java:85-102 | the child chosen is the first best by UCB score over the children |
| MonteCarlo.MonteCarloModel.Select | src/main/java/io/github/finnperera/playmodular/initialframework/AIModels/MonteCarloTreeSearch/MonteCarloModel.java:74-83 | from the root, descends to the best child while the node has both children and untried moves, and stops at the first node that lacks one or the other |
| MonteCarlo.MonteCarloModel.Expand | src/main/java/io/github/finnperera/playmodular/initialframework/AIModels/MonteCarloTreeSearch/MonteCarloModel.java:104-112 | a terminal or already expanded node is left alone; otherwise it is expanded as `MCTSNode.expand` does, up to the first refused move, whose exception is the outcome |
| MonteCarlo.MonteCarloModel.Simulate | src/main/java/io/github/finnperera/playmodular/initialframework/AIModels/MonteCarloTreeSearch/MonteCarloModel.java:114-133 | the playout is a chain of legal steps from the start, at most `maxMoves` long, that ends at a terminal state or at the move limit, in a pass to `null`, or at a `makeMove` that throws; the state left in the node is the start after the leading passes made on it in place |
| MonteCarlo.MonteCarloModel.Backpropagate | src/main/java/io/github/finnperera/playmodular/initialframework/AIModels/MonteCarloTreeSearch/MonteCarloModel.java:135-162 | every node on the path to the root gains a visit and the reward for the player who moved into it |
| MonteCarlo.MonteCarloModel.GetBestMove | src/main/java/io/github/finnperera/playmodular/initialframework/AIModels/MonteCarloTreeSearch/MonteCarloModel.java:164-193 | with root children, the move of the first root child with the largest total value; without them, some available move of the root state, and `IllegalArgumentException` when it has none |
| MonteCarlo.MonteCarloModel.Iterate | src/main/java/io/github/finnperera/playmodular/initialframework/AIModels/MonteCarloTreeSearch/MonteCarloModel.java:45-56 | one iteration keeps the search tree and only grows it; the root keeps its state, gains a visit exactly when the iteration completes, keeps existing children, and a childless live root gets one child per move up to the first refused one; when every root move is accepted the depth-one balanced shape is kept |
| MonteCarlo.MonteCarloModel.GetNextMove | src/main/java/io/github/finnperera/playmodular/initialframework/AIModels/MonteCarloTreeSearch/MonteCarloModel.java:38-71 | a fresh root for the state with at most `iterations` visits; with at least one iteration on a live state, the root's children are the moves up to the first one `makeMove` refuses, in order, and the rest stay untried; a depth-one balanced tree when none is refused; and the best move of that tree |
| MonteCarlo.MonteCarloModel.GetOptions | src/main/java/io/github/finnperera/playmodular/initialframework/AIModels/MonteCarloTreeSearch/MonteCarloModel.java:207-213 | three options: maximum moves 10..1000, exploration constant 0.1..10.0, iterations 1..10000, holding the current values |
| MonteCarlo.MonteCarloModel.SetOptions | src/main/java/io/github/finnperera/playmodular/initialframework/AIModels/MonteCarloTreeSearch/MonteCarloModel.java:216-232 | the settings after the call and the outcome are those of applying the options in order, stopping at the first rejected one |
| SearchScenarios.OnePlyRootResults | src/main/java/io/github/finnperera/playmodular/initialframework/AIModels/Minimax/MinimaxModel.java:28-57 | on a one-ply tree with leaf scores 5, -3, 2 both minimax models list the moves with exactly those values |
| SearchScenarios.OnePlyChoosesBest | src/main/java/io/github/finnperera/playmodular/initialframework/AIModels/Minimax/AlphaBetaMinimaxModel.java:55-82 | both minimax models choose the move scored 5 |
| SearchScenarios.TwoPlyValueAndPruning | src/main/java/io/github/finnperera/playmodular/initialframework/AIModels/Minimax/AlphaBetaMinimaxModel.java:84-121 | on a two-ply tree both searches value the root at 3; minimax visits 7 nodes and alpha-beta 6 |
| SearchScenarios.EmptyMoveListGivesNone | src/main/java/io/github/finnperera/playmodular/initialframework/AIModels/Minimax/MinimaxModel.java:42-56 | with no moves both models return no move |
| HexGrid.AddSubtractInverse | src/main/java/io/github/finnperera/playmodular/initialframework/Hex.java:25-31 | subtraction undoes addition and the origin is neutral |
| HexGrid.HexLength | src/main/java/io/github/finnperera/playmodular/initialframework/Hex.java:37-39 | twice the length is the sum of the absolute coordinates; length 0 exactly at the origin |
| HexGrid.LengthIsLargestCoordinate | src/main/java/io/github/finnperera/playmodular/initialframework/Hex.java:37-39 | on cube coordinates the length is the largest absolute coordinate |
| HexGrid.DistanceSymmetric | src/main/java/io/github/finnperera/playmodular/initialframework/Hex.java:41-43 | distance is symmetric and 0 exactly between equal hexes |
| HexGrid.DistanceTriangle | src/main/java/io/github/finnperera/playmodular/initialframework/Hex.java:41-43 | distance satisfies the triangle inequality |
| HexGrid.MultiplyScalesLength | src/main/java/io/github/finnperera/playmodular/initialframework/Hex.java:33-39 | scaling a hex by k scales its length by \|k\| |
| HexGrid.DirectionIsUnit | src/main/java/io/github/finnperera/playmodular/initialframework/Hex.java:46-49 | every direction has length 1 |
| HexGrid.OppositeDirections | src/main/java/io/github/finnperera/playmodular/initialframework/Hex.java:46-49 | direction d and direction d + 3 cancel |
| HexGrid.UnitIsDirection | src/main/java/io/github/finnperera/playmodular/initialframework/Hex.java:46-49 | every hex of length 1 is one of the six directions |
| HexGrid.NeighbourIsAdjacent | src/main/java/io/github/finnperera/playmodular/initialframework/Hex.java:51-53 | a neighbour is at distance 1 |
| HexGrid.NeighboursDistinct | src/main/java/io/github/finnperera/playmodular/initialframework/Hex.java:51-53 | the six neighbours are pairwise distinct |
| HexGrid.AdjacentIsNeighbour | src/main/java/io/github/finnperera/playmodular/initialframework/Hex.java:51-53 | every hex at distance 1 is a neighbour in some direction |
| HexGrid.NeighboursAreAdjacent | src/main/java/io/github/finnperera/playmodular/initialframework/Hex.java:51-53 | the neighbour list holds exactly the hexes at distance 1 |
| HexGrid.DirectionIndex | src/main/java/io/github/finnperera/playmodular/initialframework/HiveRuleEngine.java:228-229 | the index of a unit vector names that direction, and -1 marks a vector that is not a unit |
| MapStorage.MapBasedStorage.GetPieceAt | src/main/java/io/github/finnperera/playmodular/initialframework/MapBasedStorage.java:12-14 | the stored stack when the hex is a key, nothing otherwise |
| MapStorage.MapBasedStorage.PlacePieceAt | src/main/java/io/github/finnperera/playmodular/initialframework/MapBasedStorage.java:17-19 | the map with that key set to the value, all else unchanged |
| MapStorage.MapBasedStorage.RemovePieceAt | src/main/java/io/github/finnperera/playmodular/initialframework/MapBasedStorage.java:22-24 | the map without that key |
| MapStorage.MapBasedStorage.GetAllPositions | src/main/java/io/github/finnperera/playmodular/initialframework/MapBasedStorage.java:27-29 | every key exactly once |
| MapStorage.MapBasedStorage.HasPieceAt | src/main/java/io/github/finnperera/playmodular/initialframework/MapBasedStorage.java:32-34 | true exactly when the key is present |
| MapStorage.MapBasedStorage.IsEmpty | src/main/java/io/github/finnperera/playmodular/initialframework/MapBasedStorage.java:37-39 | true exactly when the size is 0, that is when no key is present |
| MapStorage.PlaceThenGet | src/main/java/io/github/finnperera/playmodular/initialframework/MapBasedStorage.java:12-19 | reading back a placed key gives the value; other keys are unaffected |
| MapStorage.PlaceSize | src/main/java/io/github/finnperera/playmodular/initialframework/MapBasedStorage.java:17-19 | placing grows the size by one exactly when the key is new |
| MapStorage.RemoveSize | src/main/java/io/github/finnperera/playmodular/initialframework/MapBasedStorage.java:22-24 | removing shrinks the size by one exactly when the key was present; other keys are unaffected |
| HiveBoard.TopOf | src/main/java/io/github/finnperera/playmodular/initialframework/HiveBoardState.java:32-36 | the top tile of a non-empty stack is in that stack |
| HiveBoard.TilesMember | src/main/java/io/github/finnperera/playmodular/initialframework/HiveBoardState.java:80-87 | a tile is on the board exactly when some stack holds it |
| HiveBoard.PlacedShape | src/main/java/io/github/finnperera/playmodular/initialframework/HiveBoardState.java:40-48 | placing puts the tile on top of the hex's stack and leaves every other hex alone |
| HiveBoard.PlacedTiles | src/main/java/io/github/finnperera/playmodular/initialframework/HiveBoardState.java:40-48 | placing adds exactly that tile to the board's tiles, and one to the piece count |
| HiveBoard.RemovedEffect | src/main/java/io/github/finnperera/playmodular/initialframework/HiveBoardState.java:52-62 | removal fails with `IllegalArgumentException` exactly on an empty hex; otherwise it pops the top tile and drops an emptied hex |
| HiveBoard.PlaceThenRemove | src/main/java/io/github/finnperera/playmodular/initialframework/HiveBoardState.java:40-62 | removing right after placing restores the board |
| HiveBoard.FilterCount | src/main/java/io/github/finnperera/playmodular/initialframework/HiveBoardState.java:109-130 | filtering a stack keeps each tile that passes as often as it occurs, and no other |
| HiveBoard.HiveBoardState.constructor | src/main/java/io/github/finnperera/playmodular/initialframework/HiveBoardState.java:13-15 | an empty board |
| HiveBoard.HiveBoardState.Copy | src/main/java/io/github/finnperera/playmodular/initialframework/HiveBoardState.java:17-25 | a fresh store with the same stacks |
| HiveBoard.HiveBoardState.HasTileAtHex | src/main/java/io/github/finnperera/playmodular/initialframework/HiveBoardState.java:27-29 | true exactly when the hex holds a stack |
| HiveBoard.HiveBoardState.HasPieceAt | src/main/java/io/github/finnperera/playmodular/initialframework/HiveBoardState.java:70-72 | the same answer as `hasTileAtHex` |
| HiveBoard.HiveBoardState.GetPieceAt | src/main/java/io/github/finnperera/playmodular/initialframework/HiveBoardState.java:32-36 | the last tile of the hex's stack, or nothing for an absent or empty stack |
| HiveBoard.HiveBoardState.IsBoardEmpty | src/main/java/io/github/finnperera/playmodular/initialframework/HiveBoardState.java:75-77 | true exactly when the board has no stacks |
| HiveBoard.HiveBoardState.PlacePiece | src/main/java/io/github/finnperera/playmodular/initialframework/HiveBoardState.java:40-48 | the tile is pushed on the hex's stack, creating it when absent |
| HiveBoard.HiveBoardState.RemovePieceAt | src/main/java/io/github/finnperera/playmodular/initialframework/HiveBoardState.java:52-62 | pops the top tile (dropping an emptied hex), or fails with `IllegalArgumentException` and changes nothing |
| HiveBoard.HiveBoardState.GetAllPositions | src/main/java/io/github/finnperera/playmodular/initialframework/HiveBoardState.java:65-67 | every occupied hex exactly once |
| HiveBoard.HiveBoardState.GetRandomPiece | src/main/java/io/github/finnperera/playmodular/initialframework/HiveBoardState.java:90-107 | nothing on an empty board, else the top tile of some stack |
| HiveBoard.HiveBoardState.GetPieceCount | src/main/java/io/github/finnperera/playmodular/initialframework/HiveBoardState.java:80-87 | the number of tiles in all stacks |
| HiveBoard.HiveBoardState.CollectTiles | src/main/java/io/github/finnperera/playmodular/initialframework/HiveBoardState.java:109-130 | every tile that passes the test, from every stack, as often as it occurs |
| HiveBoard.HiveBoardState.GetAllPiecesOfPlayer | src/main/java/io/github/finnperera/playmodular/initialframework/HiveBoardState.java:109-120 | exactly the tiles of that colour on the board, with their multiplicities |
| HiveBoard.HiveBoardState.GetQueens | src/main/java/io/github/finnperera/playmodular/initialframework/HiveBoardState.java:122-130 | exactly the queen tiles on the board, with their multiplicities |
| HiveBoard.HiveBoardState.GetQueenOfPlayer | src/main/java/io/github/finnperera/playmodular/initialframework/HiveBoardState.java:132-141 | a queen of that colour on the board, or nothing exactly when there is none |
| Hands.Decremented | src/main/java/io/github/finnperera/playmodular/initialframework/HivePlayers/HivePlayer.java:36-41 | a missing tile type throws `NullPointerException`; otherwise the same types with that count decremented |
| Hands.InitialHandCounts | src/main/java/io/github/finnperera/playmodular/initialframework/HivePlayers/HivePlayer.java:28-34 | one queen, two grasshoppers, two beetles, three ants, three spiders: eleven tiles |
| Hands.DecrementedCounts | src/main/java/io/github/finnperera/playmodular/initialframework/HivePlayers/HivePlayer.java:36-41 | with a tile of the type in hand, its count drops by one and every other count is kept |
| Hands.MissingTypeCounts | src/main/java/io/github/finnperera/playmodular/initialframework/HivePlayers/HivePlayer.java:36-45 | a type not in the hand counts 0 and cannot be removed |
| HivePlayers.AsText | src/main/java/io/github/finnperera/playmodular/initialframework/HivePlayers/HivePlayer.java:80 | the `(String)` cast: text passes, `null` passes as no ID, anything else throws `ClassCastException` |
| HivePlayers.SetPlayerOptionsOutcome | src/main/java/io/github/finnperera/playmodular/initialframework/HivePlayers/HivePlayer.java:77-85 | setting options completes exactly when every option is a Player ID holding text or `null`; any other name throws; on success the ID is the last option's text, or none for `null` |
| HivePlayers.LastPlayerIdWins | src/main/java/io/github/finnperera/playmodular/initialframework/HivePlayers/HivePlayer.java:77-85 | after a list of acceptable Player ID options the player's ID is the cast value of the last one |
| HivePlayers.HivePlayer.constructor | src/main/java/io/github/finnperera/playmodular/initialframework/HivePlayers/HivePlayer.java:14-20 | the initial hand, the colour, and the class's simple name as player ID |
| HivePlayers.HivePlayer.WithHand | src/main/java/io/github/finnperera/playmodular/initialframework/HivePlayers/HivePlayer.java:22-26 | a copy of the given hand, the colour and the ID |
| HivePlayers.HivePlayer.RemoveTile | src/main/java/io/github/finnperera/playmodular/initialframework/HivePlayers/HivePlayer.java:36-41 | a new hand with one tile of the type fewer and every other count kept; the player's own hand is untouched |
| HivePlayers.HivePlayer.GetTypeRemainingTiles | src/main/java/io/github/finnperera/playmodular/initialframework/HivePlayers/HivePlayer.java:43-45 | the count in hand, 0 for a missing type |
| HivePlayers.HivePlayer.SetHand | src/main/java/io/github/finnperera/playmodular/initialframework/HivePlayers/HivePlayer.java:47-49 | the hand is replaced |
| HivePlayers.HivePlayer.GetOptions | src/main/java/io/github/finnperera/playmodular/initialframework/HivePlayers/HivePlayer.java:70-74 | one text option named Player ID holding the class name |
| HivePlayers.HivePlayer.SetOptions | src/main/java/io/github/finnperera/playmodular/initialframework/HivePlayers/HivePlayer.java:77-85 | the ID, possibly `null`, and the outcome are those of applying the options in order, stopping at the first rejected one |
| FrameworkPlayer.HivePlayer.constructor | src/main/java/io/github/finnperera/playmodular/initialframework/HivePlayer.java:10-15 | the initial hand and the colour |
| FrameworkPlayer.HivePlayer.WithHand | src/main/java/io/github/finnperera/playmodular/initialframework/HivePlayer.java:17-20 | a copy of the given hand and the colour |
| FrameworkPlayer.HivePlayer.RemoveTile | src/main/java/io/github/finnperera/playmodular/initialframework/HivePlayer.java:30-33 | the hand loses one tile of the type in place; a missing type throws `NullPointerException` and changes nothing |
| FrameworkPlayer.HivePlayer.GetTypeRemainingTiles | src/main/java/io/github/finnperera/playmodular/initialframework/HivePlayer.java:35-37 | the count in hand, 0 for a missing type |
| FrameworkPlayer.HivePlayer.SetHand | src/main/java/io/github/finnperera/playmodular/initialframework/HivePlayer.java:39-41 | the hand is replaced |
| HiveReach.ReachStep | src/main/java/io/github/finnperera/playmodular/initialframework/HiveRuleEngine.java:250-261 | the breadth-first search may extend a reachable hex to its occupied, unskipped neighbour |
| HiveReach.ClosedContainsReach | src/main/java/io/github/finnperera/playmodular/initialframework/HiveRuleEngine.java:250-261 | every set closed under the search's step and holding the start holds every reachable hex |
| HiveReach.ReachSymmetric | src/main/java/io/github/finnperera/playmodular/initialframework/HiveRuleEngine.java:240-264 | reachability between occupied, unskipped hexes is symmetric |
| HiveReach.ReachTransitive | src/main/java/io/github/finnperera/playmodular/initialframework/HiveRuleEngine.java:240-264 | reachability is transitive |
| HiveReach.ConnectedFromAnyStart | src/main/java/io/github/finnperera/playmodular/initialframework/HiveRuleEngine.java:266-277 | whether the hive is connected without the skipped hex does not depend on which other occupied hex the search starts from |
| HiveRuleEngine.FreeToMoveFlanks | src/main/java/io/github/finnperera/playmodular/initialframework/HiveRuleEngine.java:224-237 | a step to a neighbour is free exactly when not both flanking hexes are occupied |
| HiveRuleEngine.FreeToMoveSymmetric | src/main/java/io/github/finnperera/playmodular/initialframework/HiveRuleEngine.java:224-237 | a step between neighbours is free in one direction exactly when it is free in the other |
| HiveRuleEngine.HopDirection | src/main/java/io/github/finnperera/playmodular/initialframework/HiveRuleEngine.java:143-148 | the hop lands on an empty hex |
| HiveRuleEngine.HopLandsOnFirstGap | src/main/java/io/github/finnperera/playmodular/initialframework/HiveRuleEngine.java:143-148 | the hop lands on the first empty hex of the ray, past occupied hexes only |
| HiveRuleEngine.HopMovesMeaning | src/main/java/io/github/finnperera/playmodular/initialframework/HiveRuleEngine.java:129-141 | one move per occupied neighbour; each lands two or more steps away on the first gap of its ray and is a movement of the tile |
| HiveRuleEngine.GrassHopperMoves | src/main/java/io/github/finnperera/playmodular/initialframework/HiveRuleEngine.java:129-141 | the moves are the hops over each occupied neighbour in direction order |
| HiveRuleEngine.QueenMovesMeaning | src/main/java/io/github/finnperera/playmodular/initialframework/HiveRuleEngine.java:21-53 | a queen move goes to an adjacent empty hex that is free to reach and that touches some other occupied hex |
| HiveRuleEngine.QueenMoves | src/main/java/io/github/finnperera/playmodular/initialframework/HiveRuleEngine.java:21-53 | the queen's moves are its qualifying neighbours in direction order |
| HiveRuleEngine.IsOccupiedUnconnectedPosition | src/main/java/io/github/finnperera/playmodular/initialframework/HiveRuleEngine.java:150-162 | true for an occupied or visited hex (marking nothing); otherwise the hex is marked and the answer is whether none of its unmarked neighbours is occupied |
| HiveRuleEngine.BeetleMovesMeaning | src/main/java/io/github/finnperera/playmodular/initialframework/HiveRuleEngine.java:66-72 | an unstacked beetle moves to an adjacent hex that is free to reach and occupied, or touches some other occupied hex |
| HiveRuleEngine.BeetleMoves | src/main/java/io/github/finnperera/playmodular/initialframework/HiveRuleEngine.java:55-74 | a stacked beetle may go to all six neighbours; an unstacked one to its qualifying neighbours; a tile not on the board throws `NullPointerException` |
| HiveRuleEngine.ClimbingMoves | src/main/java/io/github/finnperera/playmodular/initialframework/HiveRuleEngine.java:58-64 | one move per neighbour, in direction order |
| HiveRuleEngine.IsValidPlacePosition | src/main/java/io/github/finnperera/playmodular/initialframework/HiveRuleEngine.java:211-222 | true exactly when no neighbour is topped by the other colour |
| HiveRuleEngine.GeneratePlacementPositions | src/main/java/io/github/finnperera/playmodular/initialframework/HiveRuleEngine.java:164-209 | the origin on an empty board, the origin's neighbours next to one tile, and otherwise the search's result from some top tile; on a connected board, exactly the empty hexes next to an own top tile with no opposing neighbour |
| HiveRuleEngine.SearchPlacements | src/main/java/io/github/finnperera/playmodular/initialframework/HiveRuleEngine.java:174-208 | the breadth-first search's result: a missing piece throws `NullPointerException`, otherwise exactly the valid empty hexes next to own top tiles it reaches |
| HiveRuleEngine.PlacementSearchDone | src/main/java/io/github/finnperera/playmodular/initialframework/HiveRuleEngine.java:184-208 | once the queue is empty, the valid list holds exactly the placement targets reachable from the start |
| HiveRuleEngine.ConnectedPlacements | src/main/java/io/github/finnperera/playmodular/initialframework/HiveRuleEngine.java:164-209 | on a connected board the reachable placement targets are exactly the free placement hexes, whatever the start |
| HiveRuleEngine.IsConnected | src/main/java/io/github/finnperera/playmodular/initialframework/HiveRuleEngine.java:240-264 | true without a start; otherwise true exactly when every occupied hex is reachable from the start avoiding the skipped one |
| HiveRuleEngine.VisitConnected | src/main/java/io/github/finnperera/playmodular/initialframework/HiveRuleEngine.java:243-261 | the visited set holds exactly the skipped hex and the hexes reachable from the start |
| HiveRuleEngine.ConnectSearchDone | src/main/java/io/github/finnperera/playmodular/initialframework/HiveRuleEngine.java:250-261 | once the queue is empty the visited hexes are exactly the reachable ones |
| HiveRuleEngine.IsOneHiveWhileMoving | src/main/java/io/github/finnperera/playmodular/initialframework/HiveRuleEngine.java:266-278 | true for a board of fewer than two hexes or a stacked tile; otherwise connectivity without the tile's hex from a drawn other hex; on a board whose tiles name their hexes, exactly whether the hive stays connected without the tile |
| HiveRuleEngine.LocatedDrawSucceeds | src/main/java/io/github/finnperera/playmodular/initialframework/HiveRuleEngine.java:273-276 | on a board of two or more hexes whose tiles name their hexes, the random draw can end |
| HiveMoves.SpiderMoves | src/main/java/io/github/finnperera/playmodular/initialframework/HiveRuleEngine.java:76-92 | every move found ends a three-step walk from the tile's hex over distinct empty hexes that each touch another tile, whose first step is free to make |
| HiveMoves.SpiderMoveToDepth | src/main/java/io/github/finnperera/playmodular/initialframework/HiveRuleEngine.java:94-105 | every move it adds ends a walk of the remaining steps from the hex, and the visited set only grows |
| HiveMoves.SpiderDestinationMeaning | src/main/java/io/github/finnperera/playmodular/initialframework/HiveRuleEngine.java:76-105 | a spider move moves the tile to an empty hex other than its own, at most three steps away |
| HiveMoves.SoldierAntMoves | src/main/java/io/github/finnperera/playmodular/initialframework/HiveRuleEngine.java:107-127 | every move found reaches an empty hex touching the hive by free steps, and no target is listed twice |
| HiveMoves.AntDestinationMeaning | src/main/java/io/github/finnperera/playmodular/initialframework/HiveRuleEngine.java:107-127 | an ant move moves the tile to an empty hex next to some occupied hex |
| HiveMoves.AntReachStep | src/main/java/io/github/finnperera/playmodular/initialframework/HiveRuleEngine.java:117-121 | a free step from a reachable hex to an empty hex touching the hive is reachable |
| HiveMoves.GeneratePieceMoves | src/main/java/io/github/finnperera/playmodular/initialframework/HiveRuleEngine.java:8-19 | no moves when moving would split the hive; otherwise the moves of the tile's kind |
| HiveGames.TurnsAlternate | src/main/java/io/github/finnperera/playmodular/initialframework/HiveGame.java:224-239 | the first player moves on odd turns, and the players alternate |
| HiveGames.PlacementsOfMembers | src/main/java/io/github/finnperera/playmodular/initialframework/HiveGame.java:69-73 | the placement list for one type is one placement of that type at each position |
| HiveGames.TypePlacementsMembers | src/main/java/io/github/finnperera/playmodular/initialframework/HiveGame.java:69-73 | a placement is listed exactly when its type is still in hand and its position is offered |
| HiveGames.PlacementMovesMeaning | src/main/java/io/github/finnperera/playmodular/initialframework/HiveGame.java:55-75 | the placement moves are the queen at each position when three tiles are down and the queen is not, and otherwise every type in hand at each position |
| HiveGames.SearchOffers | src/main/java/io/github/finnperera/playmodular/initialframework/HiveGame.java:55-58 | the positions the rule engine returns are offered positions, or a `NullPointerException` |
| HiveGames.OfferedPlacementsValid | src/main/java/io/github/finnperera/playmodular/initialframework/HiveGame.java:143-156 | with the corrected validation every offered placement is valid, on every board |
| HiveGames.OpeningReplyRefused | src/main/java/io/github/finnperera/playmodular/initialframework/HiveGame.java:143-150 | as written, validation refuses every placement offered to the second player after the opening tile |
| HiveGames.OfferedMovesValid | src/main/java/io/github/finnperera/playmodular/initialframework/HiveGame.java:37-53 | with the corrected validation every move `getAvailableMoves` offers the player to move passes `isValidMove` |
| HiveGames.PlacementEffect | src/main/java/io/github/finnperera/playmodular/initialframework/HiveGame.java:95-111 | a placement adds exactly the placed tile, one tile more, on top of the target |
| HiveGames.MovementEffect | src/main/java/io/github/finnperera/playmodular/initialframework/HiveGame.java:112-119 | a movement fails with `IllegalArgumentException` exactly on an empty source hex; otherwise it moves the top tile, keeps the tile count and puts the moved tile on top of the target |
| HiveGames.PlayKeepsAnchored | src/main/java/io/github/finnperera/playmodular/initialframework/HiveGame.java:90-122 | a move keeps every tile naming the hex it sits on |
| HiveGames.SurroundedCount | src/main/java/io/github/finnperera/playmodular/initialframework/HiveGame.java:161-174 | six occupied neighbours is the same as being surrounded |
| HiveGames.SurroundedNeedsSeven | src/main/java/io/github/finnperera/playmodular/initialframework/HiveGame.java:161-174 | a surrounded queen needs seven tiles on the board |
| HiveGames.VerdictMeaning | src/main/java/io/github/finnperera/playmodular/initialframework/HiveGame.java:177-198 | no result with no surrounded queen, a draw with two or more, and with one surrounded queen a loss for its owner and a win for the other |
| HiveGames.VerdictOrderFree | src/main/java/io/github/finnperera/playmodular/initialframework/HiveGame.java:177-198 | the result does not depend on the order the queens are listed in |
| HiveGames.TerminalHasResult | src/main/java/io/github/finnperera/playmodular/initialframework/HiveGame.java:161-198 | a board with a surrounded queen has a result |
| HiveGames.CountNeighbours | src/main/java/io/github/finnperera/playmodular/initialframework/HiveGame.java:161-174 | the number of occupied neighbours |
| HiveGames.HiveGame.constructor | src/main/java/io/github/finnperera/playmodular/initialframework/HiveGame.java:20-26 | the two players and the board, at turn 1 |
| HiveGames.HiveGame.WithTurn | src/main/java/io/github/finnperera/playmodular/initialframework/HiveGame.java:28-34 | the two players, the board and the given turn |
| HiveGames.HiveGame.NextTurn | src/main/java/io/github/finnperera/playmodular/initialframework/HiveGame.java:237-239 | the turn advances and the player to move and the opponent swap |
| HiveGames.HiveGame.ValidateHiveMove | src/main/java/io/github/finnperera/playmodular/initialframework/HiveGame.java:131-156 | true exactly for a move of the mover's colour that is either a placement allowed by the corrected rule or any other move once the mover's queen is down |
| HiveGames.HiveGame.GetPlacementMoves | src/main/java/io/github/finnperera/playmodular/initialframework/HiveGame.java:55-75 | the placement moves for some offered positions, or `NullPointerException` from the position search |
| HiveGames.HiveGame.KeepValid | src/main/java/io/github/finnperera/playmodular/initialframework/HiveGame.java:47-49 | keeps exactly the moves that pass validation |
| HiveGames.HiveGame.CollectPieceMoves | src/main/java/io/github/finnperera/playmodular/initialframework/HiveGame.java:46-50 | every kept move is a valid move of one of the pieces, and every valid move some piece's generator gives is kept |
| HiveGames.HiveGame.GetAvailableMoves | src/main/java/io/github/finnperera/playmodular/initialframework/HiveGame.java:37-53 | a permutation of the offered placement moves and of valid moves that cover every move each own tile's generator gives; `NullPointerException` from the position search |
| HiveGames.HiveGame.MakeMove | src/main/java/io/github/finnperera/playmodular/initialframework/HiveGame.java:78-122 | fails exactly for an invalid move, a placement of a type not in hand, or a movement from an empty hex; otherwise a fresh game one turn on whose board is the played board, with the mover's hand one tile fewer after a placement, and the mover's ID reset to the class's simple name |
| HiveGames.HiveGame.IsTerminalState | src/main/java/io/github/finnperera/playmodular/initialframework/HiveGame.java:161-174 | true exactly when seven or more tiles are down and some queen is surrounded |
| HiveGames.HiveGame.GetGameResult | src/main/java/io/github/finnperera/playmodular/initialframework/HiveGame.java:177-198 | a null player is refused with `IllegalArgumentException`; otherwise the verdict over the board's queens for that player's colour |
| HiveGames.HiveGame.HandleNoAvailableMoves | src/main/java/io/github/finnperera/playmodular/initialframework/HiveGame.java:201-208 | the turn passes; then no game exactly when the new player to move has no moves, and this game otherwise |
| HiveHeuristics.WithIntSetting | src/main/java/io/github/finnperera/playmodular/initialframework/HiveHeuristics/BasicHeuristic.java:225-242 | changes one score setting and no other |
| HiveHeuristics.SlotOf | src/main/java/io/github/finnperera/playmodular/initialframework/HiveHeuristics/BasicHeuristic.java:225-242 | the index of a known option name, -1 exactly for an unknown one |
| HiveHeuristics.UnboxText | src/main/java/io/github/finnperera/playmodular/initialframework/HiveHeuristics/BasicHeuristic.java:225-242 | text or null passes and boxes back to the same value, anything else is a `ClassCastException` |
| HiveHeuristics.UnboxInt | src/main/java/io/github/finnperera/playmodular/initialframework/HiveHeuristics/BasicHeuristic.java:194-204 | an integer or null passes and boxes back to the same value, anything else is a `ClassCastException` |
| HiveHeuristics.OptionList | src/main/java/io/github/finnperera/playmodular/initialframework/HiveHeuristics/BasicHeuristic.java:207-222 | twelve options: the ID as a text box, then eleven integer spinners bounded by `MIN_VALUE / 2` and `MAX_VALUE / 2`, each holding its setting |
| HiveHeuristics.ApplyOptionEffect | src/main/java/io/github/finnperera/playmodular/initialframework/HiveHeuristics/BasicHeuristic.java:225-242 | an option is accepted exactly when its value has the right type; unknown names are ignored; a known name sets that setting only |
| HiveHeuristics.SetOptionsOutcome | src/main/java/io/github/finnperera/playmodular/initialframework/HiveHeuristics/BasicHeuristic.java:225-242 | setting options succeeds exactly when every option is accepted, failing with `ClassCastException` otherwise |
| HiveHeuristics.SetOwnOptions | src/main/java/io/github/finnperera/playmodular/initialframework/HiveHeuristics/BasicHeuristic.java:207-242 | feeding the heuristic's own options back in changes nothing |
| HiveHeuristics.PieceValuesNamed | src/main/java/io/github/finnperera/playmodular/initialframework/HiveHeuristics/BasicHeuristic.java:168-187 | each tile type's value is the setting of its own name |
| HiveHeuristics.WonExactly | src/main/java/io/github/finnperera/playmodular/initialframework/HiveHeuristics/BasicHeuristic.java:75-80 | the player has won exactly when the game result is a win for them |
| HiveHeuristics.WinOrLoseCases | src/main/java/io/github/finnperera/playmodular/initialframework/HiveHeuristics/BasicHeuristic.java:75-80 | on a terminal board a win scores the win setting, a loss or draw the lose setting |
| HiveHeuristics.QueenStuckExactly | src/main/java/io/github/finnperera/playmodular/initialframework/HiveHeuristics/BasicHeuristic.java:90-118 | on a board whose tiles name their hexes, the queen has no moves exactly when moving it would split the hive or no queen step exists |
| HiveHeuristics.CanBeStuck | src/main/java/io/github/finnperera/playmodular/initialframework/HiveHeuristics/BasicHeuristic.java:155-166 | true exactly when the stack's top tile has two or more occupied neighbours |
| HiveHeuristics.SurroundTotal | src/main/java/io/github/finnperera/playmodular/initialframework/HiveHeuristics/BasicHeuristic.java:90-118 | one less than the number of occupied neighbours, times the surround score, wrapped to 32 bits |
| HiveHeuristics.QueenTermOf | src/main/java/io/github/finnperera/playmodular/initialframework/HiveHeuristics/BasicHeuristic.java:90-118 | the queen term the surround result stands for |
| HiveHeuristics.EvaluatesFrom | src/main/java/io/github/finnperera/playmodular/initialframework/HiveHeuristics/BasicHeuristic.java:45-73 | the evaluation is the win/lose term plus the two queen terms plus the stuck-piece term, wrapped to 32 bits |
| HiveHeuristics.EvaluationMeaning | src/main/java/io/github/finnperera/playmodular/initialframework/HiveHeuristics/BasicHeuristic.java:45-73 | the four partial scores, added up with 32-bit wrap-around, give the evaluation |
| HiveHeuristics.StuckStep | src/main/java/io/github/finnperera/playmodular/initialframework/HiveHeuristics/BasicHeuristic.java:120-153 | adding one hex's stack score to the running total keeps it the wrapped sum over the hexes done |
| HiveHeuristics.StackStep | src/main/java/io/github/finnperera/playmodular/initialframework/HiveHeuristics/BasicHeuristic.java:120-153 | one hex contributes its buried-tile values plus, when pinned, its top tile's value |
| HiveHeuristics.BasicHeuristic.constructor | src/main/java/io/github/finnperera/playmodular/initialframework/HiveHeuristics/BasicHeuristic.java:21-43 | the default scores: win `MAX_VALUE / 2`, lose `MIN_VALUE / 2`, own queen -50 and -300, opponent queen 50 and 300, tile values 70, 80, 60, 50, 50 |
| HiveHeuristics.BasicHeuristic.GetOptions | src/main/java/io/github/finnperera/playmodular/initialframework/HiveHeuristics/BasicHeuristic.java:207-222 | the option list of the current settings |
| HiveHeuristics.BasicHeuristic.SetOptions | src/main/java/io/github/finnperera/playmodular/initialframework/HiveHeuristics/BasicHeuristic.java:225-242 | the settings and outcome are those of applying the options in order, stopping at the first rejected one |
| HiveHeuristics.BasicHeuristic.SetScore | src/main/java/io/github/finnperera/playmodular/initialframework/HiveHeuristics/BasicHeuristic.java:225-242 | one score setting changes |
| HiveHeuristics.BasicHeuristic.WinOrLose | src/main/java/io/github/finnperera/playmodular/initialframework/HiveHeuristics/BasicHeuristic.java:75-80 | the win/lose term for the player |
| HiveHeuristics.BasicHeuristic.QueenSurround | src/main/java/io/github/finnperera/playmodular/initialframework/HiveHeuristics/BasicHeuristic.java:90-118 | the queen term for the player's queen: surround score per extra neighbour, and the stuck score when the queen cannot move |
| HiveHeuristics.BasicHeuristic.HasNoMoves | src/main/java/io/github/finnperera/playmodular/initialframework/HiveHeuristics/BasicHeuristic.java:108-112 | true exactly when the queen has no moves |
| HiveHeuristics.BasicHeuristic.StuckPieces | src/main/java/io/github/finnperera/playmodular/initialframework/HiveHeuristics/BasicHeuristic.java:120-153 | the wrapped sum over all stacks of their stack scores |
| HiveHeuristics.BasicHeuristic.StackPieces | src/main/java/io/github/finnperera/playmodular/initialframework/HiveHeuristics/BasicHeuristic.java:125-151 | adds one hex's stack score to the total |
| HiveHeuristics.BasicHeuristic.IsPinned | src/main/java/io/github/finnperera/playmodular/initialframework/HiveHeuristics/BasicHeuristic.java:140-148 | true exactly when the top tile cannot leave without splitting the hive |
| HiveHeuristics.BasicHeuristic.BuriedPieces | src/main/java/io/github/finnperera/playmodular/initialframework/HiveHeuristics/BasicHeuristic.java:128-138 | adds the signed values of the buried tiles |
| HiveHeuristics.BasicHeuristic.Evaluate | src/main/java/io/github/finnperera/playmodular/initialframework/HiveHeuristics/BasicHeuristic.java:60-73 | the evaluation for the max and min player |
| HiveHeuristics.BasicHeuristic.GetEvaluation | src/main/java/io/github/finnperera/playmodular/initialframework/HiveHeuristics/BasicHeuristic.java:45-57 | the evaluation with the player to move as max |
| HiveHeuristics.BasicHeuristic.GetEvaluationFor | src/main/java/io/github/finnperera/playmodular/initialframework/HiveHeuristics/BasicHeuristic.java:60-73 | the evaluation for the given max player against the other |
| HiveHeuristics.EvaluateBoardState | src/main/java/io/github/finnperera/playmodular/initialframework/HiveGame.java:125-127 | the game's evaluation is the default heuristic's, with the player to move as max |
| HiveConfig.IndexOfName | src/main/java/io/github/finnperera/playmodular/initialframework/HiveGameConfig.java:54-70 | the first position holding the name, or the length when none does |
| HiveConfig.LastIndexNamed | src/main/java/io/github/finnperera/playmodular/initialframework/HiveGameConfig.java:126-144 | the last option with the name, or none when no option has it |
| HiveConfig.FirstOccurrencesFacts | src/main/java/io/github/finnperera/playmodular/initialframework/HiveGameConfig.java:54-70 | the first occurrences keep every name once |
| HiveConfig.PutAllMeaning | src/main/java/io/github/finnperera/playmodular/initialframework/HiveGameConfig.java:54-70 | putting options into an empty linked map keeps the names in first-insertion order with the last value of each |
| HiveConfig.PutAllAppend | src/main/java/io/github/finnperera/playmodular/initialframework/HiveGameConfig.java:54-70 | putting two lists is putting their concatenation |
| HiveConfig.HeuristicChoices | src/main/java/io/github/finnperera/playmodular/initialframework/HiveGameConfig.java:188-207 | one choice per registered heuristic, in order |
| HiveConfig.RebuiltInPlace | src/main/java/io/github/finnperera/playmodular/initialframework/HiveGameConfig.java:54-70 | rebuilding the heuristic option keeps the names and every other option |
| HiveConfig.CombinedMeaning | src/main/java/io/github/finnperera/playmodular/initialframework/HiveGameConfig.java:54-70 | the combined options have distinct names in first-insertion order; each holds the last value given, new over old, and the heuristic option is rebuilt with the registered heuristics |
| HiveConfig.NewOverridesOld | src/main/java/io/github/finnperera/playmodular/initialframework/HiveGameConfig.java:54-70 | a name present in the new options takes its value from them, and otherwise from the old ones |
| HiveConfig.CountNamedAppend | src/main/java/io/github/finnperera/playmodular/initialframework/HiveGameConfig.java:126-144 | counting a name over a concatenation adds the counts |
| HiveConfig.WithoutPlayerIdMeaning | src/main/java/io/github/finnperera/playmodular/initialframework/HiveGameConfig.java:126-144 | removing the found Player ID option removes exactly that one option |
| HiveConfig.HiveGameConfig.constructor | src/main/java/io/github/finnperera/playmodular/initialframework/HiveGameConfig.java:26-33 | two human players, White and Black, their own options, and the basic heuristic registered |
| HiveConfig.HiveGameConfig.GetPlayerByColour | src/main/java/io/github/finnperera/playmodular/initialframework/HiveGameConfig.java:226-228 | player1 for White and player2 for Black |
| HiveConfig.HiveGameConfig.GetPlayerOptions | src/main/java/io/github/finnperera/playmodular/initialframework/HiveGameConfig.java:146-152 | the option list of that colour's player |
| HiveConfig.HiveGameConfig.SetPlayer | src/main/java/io/github/finnperera/playmodular/initialframework/HiveGameConfig.java:35-51 | the player is set; given options are combined with the old ones, otherwise the player's own options are taken, and a null player without options throws `NullPointerException` |
| HiveConfig.HiveGameConfig.CombineOptions | src/main/java/io/github/finnperera/playmodular/initialframework/HiveGameConfig.java:54-70 | the combined option list |
| HiveConfig.HiveGameConfig.BuildNewHeuristicOption | src/main/java/io/github/finnperera/playmodular/initialframework/HiveGameConfig.java:188-207 | the same option as an object dropdown without bounds, offering every registered heuristic |
| HiveConfig.HiveGameConfig.ConfigurePlayerOptions | src/main/java/io/github/finnperera/playmodular/initialframework/HiveGameConfig.java:126-144 | the Player ID option, when present, sets the ID; when that succeeds for an AI whose model takes options, the rest are passed on |
| GameLogs.JavaDivision | src/main/java/io/github/finnperera/playmodular/initialframework/GameLog.java:55-60 | Java's `/` and `%` truncate toward zero |
| GameLogs.DurationPartsMeaning | src/main/java/io/github/finnperera/playmodular/initialframework/GameLog.java:55-60 | hours, minutes and seconds add back to the duration; minutes and seconds lie below 60 and share the duration's sign |
| GameLogs.Digits | src/main/java/io/github/finnperera/playmodular/initialframework/GameLog.java:55-60 | decimal digits without a leading zero, one for n < 10 and two for n < 100 |
| GameLogs.DigitsRoundTrip | src/main/java/io/github/finnperera/playmodular/initialframework/GameLog.java:55-60 | reading back the digits of n gives n |
| GameLogs.Pad2Meaning | src/main/java/io/github/finnperera/playmodular/initialframework/GameLog.java:55-60 | `%02d` gives at least two digits with the same value, exactly two below 100 |
| GameLogs.DurationTextRoundTrip | src/main/java/io/github/finnperera/playmodular/initialframework/GameLog.java:55-60 | the duration text has the form H:MM:SS and reads back to the duration |
| GameLogs.AIPlayersMeaning | src/main/java/io/github/finnperera/playmodular/initialframework/GameLog.java:74-91 | the player map holds exactly the AI players' IDs, each mapped to the last such player's model log or message |
| GameLogs.ToStringArray | src/main/java/io/github/finnperera/playmodular/initialframework/GameLog.java:50-72 | ID, start, end, duration text, turn count, then each player's ID and result in order |
| GameLogs.PlayerFields | src/main/java/io/github/finnperera/playmodular/initialframework/GameLog.java:64-69 | each player's ID and result, in order |
| GameLogs.ToMap | src/main/java/io/github/finnperera/playmodular/initialframework/GameLog.java:74-91 | the game ID and the AI players' entries |
| AlphaBeta.WindowMaxFold | src/main/java/io/github/finnperera/playmodular/initialframework/AIModels/Minimax/AlphaBetaMinimaxModel.java:102-109 | the maximising move loop keeps the fail-soft relation to the plain maximum fold as alpha rises and the loop stops at a cut-off |
| AlphaBeta.WindowMinFold | src/main/java/io/github/finnperera/playmodular/initialframework/AIModels/Minimax/AlphaBetaMinimaxModel.java:110-117 | the minimising move loop keeps the fail-soft relation to the plain minimum fold as beta falls and the loop stops at a cut-off |
| AlphaBeta.PruningFoldExploresNoMore | src/main/java/io/github/finnperera/playmodular/initialframework/AIModels/Minimax/AlphaBetaMinimaxModel.java:102-117 | over the remaining moves the pruned loop visits no more nodes than the plain one |
| Common.WrapSum | src/main/java/io/github/finnperera/playmodular/initialframework/HiveHeuristics/BasicHeuristic.java:45-73 | 32-bit wrap-around of a sum does not depend on wrapping the parts first |
| HiveBoard.HiveBoardState.FilterStack | src/main/java/io/github/finnperera/playmodular/initialframework/HiveBoardState.java:109-130 | the stack's tiles that pass the test, in order |
| HiveGames.PlacementsByType | src/main/java/io/github/finnperera/playmodular/initialframework/HiveGame.java:65-73 | for every type still in hand, in `HiveTileType` order, one placement at each position |
| HiveGames.PlacementsAt | src/main/java/io/github/finnperera/playmodular/initialframework/HiveGame.java:69-72 | one placement of the type at each position, in order |
| HiveGames.HiveGame.PlacementsFor | src/main/java/io/github/finnperera/playmodular/initialframework/HiveGame.java:59-74 | the placement moves for the player and the positions: only queens when three tiles are down without the queen |
| HiveGames.SurroundedQueensPermuted | src/main/java/io/github/finnperera/playmodular/initialframework/HiveGame.java:177-198 | the surrounded queens of a permuted queen list are a permutation of the original's |
| HiveMoves.SpiderLevel | src/main/java/io/github/finnperera/playmodular/initialframework/HiveRuleEngine.java:94-105 | one level of the spider search: the visited set only grows and the moves added are the spider walks of the remaining length from the hex |
| HiveMoves.ExpandAnt | src/main/java/io/github/finnperera/playmodular/initialframework/HiveRuleEngine.java:114-124 | the neighbours queued are new, empty, touch the hive, are reachable by a free step, and are each queued once |
| HiveRuleEngine.PollPlacement | src/main/java/io/github/finnperera/playmodular/initialframework/HiveRuleEngine.java:184-206 | a polled empty hex is dropped; an occupied one queues every unvisited occupied neighbour and, when its top shows the placing colour, records every valid empty neighbour |
| HiveRuleEngine.ExpandConnected | src/main/java/io/github/finnperera/playmodular/initialframework/HiveRuleEngine.java:250-261 | queues exactly new occupied neighbours other than the skipped hex, so every such neighbour ends up visited or queued |

## Left out

- HiveMoves.SpiderMoves: proves only soundness. Every returned move is a three-step spider walk, but the model does not prove that every such walk is returned. The visited set is shared across the branches of `spiderMoveToDepth`, so a walk through a hex that another branch visited first is not searched again.
- HiveMoves.SoldierAntMoves: proves soundness and that no target repeats, but not that every reachable hex is returned.
- HiveMoves.GeneratePieceMoves: requires that a random draw of a start hex can end. The Java loop draws until it finds a tile on another hex; on an inconsistent board it never ends. The requires holds on every board whose tiles name their hexes (`HiveRuleEngine.LocatedDrawSucceeds`).
- HiveHeuristics.BasicHeuristic.Evaluate: evaluation claims hold only on boards whose tiles name their hexes, and every score must be non-null (`Configured`); a null score would throw on unboxing in Java.
- HiveHeuristics.BasicHeuristic.GetEvaluation: the Java `assert` on the game's class is not modelled; the method takes a `HiveGame`.
- GameLogs.DurationTextRoundTrip: covers non-negative durations only; a negative duration gives a text with minus signs in each field.
- HiveRuleEngine.IsFreeToMove: modelled for two distinct hexes only. `Hex.getNeighbours` and `hexDirectionAsIndex` are not part of this model; neighbours are taken in direction order and the direction index is the position in the direction table.
- HiveRuleEngine.IsOneHiveWhileMoving: Java compares hexes by reference (`==`); the model compares by value.
- HiveGames.HiveGame.ValidateHiveMove: follows the corrected check (see Findings); `HiveGames.ValidMoveAsWritten` keeps the code as written.
- HiveGames.HiveGame.MakeMove: uses the same corrected check.
- MCTSNode.Tree.Expand: `MCTSNode.expand` removes moves from the list the caller passed in; the model works on a copy, so that aliasing is not modelled.
- MonteCarlo.MonteCarloModel.Simulate: the random playout move is an arbitrary move; the UCB score's floating-point arithmetic is the parameter `ucb`.
- HiveConfig.HiveGameConfig.ConfigurePlayerOptions: `options.remove(playerIDOption)` removes the first element identical to the kept object, since `Option` does not override `equals`. The model removes the last option named Player ID, which is the object the loop keeps. The two differ only when the same option object occurs twice in the list. The model's `setOptions` call is returned as `forwarded`. `modelTakesOptions` stands for the `instanceof ConfigurableOptions` test.
- GameLogs.AIPlayersMeaning: the map's iteration order is not modelled; a player ID repeated among AI players keeps the last entry.
- HexGrid: `Hex.java` in the repository defines `equals(Hex)` as an overload and no `hashCode`, and it lacks the static `hexAdd`, `hexSubtract`, `hexNeighbour`, `hexDistance`, `hexDirectionAsIndex` and `getNeighbours` that the rule engine calls. `MapBasedStorage.java` lacks the copying constructor that `HiveBoardState`'s copy constructor calls. The engine is written against a newer `Hex` and `MapBasedStorage`; the model follows the engine, so hexes are values compared by coordinates and usable as map keys.
- HexGrid: coordinates are unbounded integers. Java's `int` arithmetic in `hexAdd`, `hexMultiply` and `Math.abs` would wrap beyond 2^31; the boards of a game stay far below that.
- AlphaBeta.AlphaBetaMinimaxModel.SetOptions: a thread count of 0 or less is stored before `rebuildExecutor` throws, and the old pool is already shut down; the model keeps the previous count, and later submissions to the shut-down pool, which Java refuses with `RejectedExecutionException`, are not modelled.
- AlphaBeta.Create, Minimax.MinimaxModel.GetNextMove: the thread pool is only sized; the order in which the pool's threads finish is not modelled, and MinimaxModel's unsynchronised node counter is treated as if its increments never raced.
- GameTree.Pass: `handleNoAvailableMoves` returns either its receiver or `null`, as `HiveGame` does; a game returning some other object is outside the model.
- MonteCarlo.Reward: both players' IDs are taken as non-null; a `null` Player ID would make backpropagation's `equals` throw `NullPointerException`. `GameLogs` also takes player IDs as strings.
- HiveGames.HiveGame.MakeMove: `processHiveMove` (HiveGame.java:101-103) and `HiveAI`'s constructor call a `HivePlayer(hand, colour)` constructor that `HivePlayers/HivePlayer.java` does not have. The model assumes that constructor sets the ID to the class's simple name, as the field initialiser does, so a Player ID set through `setOptions` does not survive a placement. The AI player's search model is carried over and not otherwise modelled.
- AlphaBeta.AlphaBetaMinimaxModel.GetNextMove, Minimax.MinimaxModel.GetNextMove: the node counters are unbounded integers; Java's `int` (`MinimaxModel`) and `AtomicLong` (`AlphaBetaMinimaxModel`) counters would wrap after 2^31 and 2^63 nodes. The alpha-beta root depth `maxDepth - 1` does wrap, as `AlphaBeta.RootDepthWraps` states.
- `GameResult.java`, the `HiveTileType` enum and `Game.java` are not part of this model. Tile types are taken in the order `createHand` lists them. `Game.java` in the repository does not match the methods `HiveGame` implements, so the game interface is modelled from `HiveGame`'s own methods.
- `toLogMap` methods, `getHeuristicID`, `HiveGame.getOptions`/`setOptions`/`getPlayers`, `getGameName`/`getExpectedPlayers`: logging and UI metadata.
- `HiveGameConfig.addHeuristic`: calls back into the user interface. `createGame`, `createGameFromGameState`, `configureHivePlayer`, `configureAIModel`, `getHeuristicOption` and `playerToMap` create objects for the UI; only the option handling they rely on is modelled.
- The turn counter is an unbounded integer; Java's `int` would overflow after 2^31 turns.
- Threads, timing, JavaFX, logging and console output are left out.

## Findings

| source | as written | input that shows it | evidently intended | confidence | as-written member | corrected member |
|---|---|---|---|---|---|---|
| src/main/java/io/github/finnperera/playmodular/initialframework/HiveGame.java:143-156 | `validateHiveMove` applies `isValidPlacePosition`, which refuses a hex next to the other colour's tile, to every placement. `getAvailableMoves` does not filter placements. | Turn 2, after White's first tile at the origin: Black is offered the six neighbours of the origin, `makeMove` refuses each of them with `IllegalArgumentException`, and Black cannot place a tile. | The colour rule applies only once two tiles are down, as `generatePlacementPositions` already assumes for its first two cases. | high, not executed | HiveGames.OpeningReplyRefused | HiveGames.OfferedMovesValid |
