/** The nodes of a Monte Carlo search tree (MCTSNode.java), kept in an arena:
    a node reference is its index in `nodes`, and `parent` and `children`
    hold indices. The root is node 0. `totalValue` only ever accumulates
    -1, 0 or +1, so it is an integer here. */
module MCTSNode {
  import opened Common
  import opened GameTree

  datatype Node<S, M> = Node(
    state: S,                 // gameState
    parent: Option<nat>,      // null for the root
    children: seq<nat>,
    visits: nat,
    totalValue: int,
    moveMade: Option<M>,      // null for the root
    untriedMoves: seq<M>)

  /** Indices `start`, `start + 1`, ..., `start + n - 1`. */
  function Range(start: nat, n: nat): (r: seq<nat>)
    ensures |r| == n && forall k :: 0 <= k < n ==> r[k] == start + k
  {
    seq(n, k requires 0 <= k < n => start + k)
  }

  /** The arena is a tree rooted at node 0: every other node has a parent with
      a smaller index, and each child of a node has a larger index and names
      that node as its parent. */
  ghost predicate WellFormed<S, M>(nodes: seq<Node<S, M>>)
  {
    && |nodes| > 0
    && nodes[0].parent == None
    && (forall i :: 0 < i < |nodes| ==> nodes[i].parent.Some? && nodes[i].parent.value < i && nodes[i].moveMade.Some?)
    && (forall i, k :: 0 <= i < |nodes| && 0 <= k < |nodes[i].children| ==>
          i < nodes[i].children[k] < |nodes| && nodes[nodes[i].children[k]].parent == Some(i))
  }

  /** What a later tree keeps of an earlier one: no node disappears, parents
      and moves never change, and visit counts never decrease. (A node's state
      object can change: a playout passes on it in place.) */
  ghost predicate Grows<S, M>(before: seq<Node<S, M>>, after: seq<Node<S, M>>)
  {
    && |before| <= |after|
    && forall j :: 0 <= j < |before| ==>
         && after[j].parent == before[j].parent
         && after[j].moveMade == before[j].moveMade
         && after[j].visits >= before[j].visits
  }

  /** The node `new MCTSNode(state, parent, untried, move)` creates. */
  function NewNode<S, M>(state: S, parent: Option<nat>, untried: seq<M>, move: Option<M>): (n: Node<S, M>)
    ensures n.visits == 0 && n.totalValue == 0 && n.children == []
    ensures n.state == state && n.parent == parent && n.untriedMoves == untried && n.moveMade == move
  {
    Node(state, parent, [], 0, 0, move, untried)
  }

  /** The child that expanding node `i` creates for move `m`, which
      `makeMove` accepts. */
  function ChildFor<S, M, P>(game: Game<S, M, P>, i: nat, s: S, m: M): Node<S, M>
    requires game.makeMove(s, m).Ok?
  {
    var next := game.makeMove(s, m).value;
    NewNode(next, Some(i), game.moves(next), Some(m))
  }

  /** How many of node `i`'s untried moves `expand` turns into children: all
      of them up to the first one `makeMove` refuses. */
  function Accepted<S, M, P>(game: Game<S, M, P>, nodes: seq<Node<S, M>>, i: nat): (k: nat)
    requires i < |nodes|
    ensures k <= |nodes[i].untriedMoves|
  {
    FirstRefused(game, nodes[i].state, nodes[i].untriedMoves)
  }

  /** `after` is what `expand` on node `i` makes of `before`: one new child
      per untried move up to the first one `makeMove` refuses, in order,
      appended to the arena and to the node's children, and those moves
      dropped from the untried ones; no other node changes. */
  ghost predicate Expanded<S, M, P>(game: Game<S, M, P>, before: seq<Node<S, M>>, after: seq<Node<S, M>>, i: nat)
    requires i < |before|
  {
    var n, um, k := |before|, before[i].untriedMoves, Accepted(game, before, i);
    && |after| == n + k
    && after[i] == before[i].(children := before[i].children + Range(n, k), untriedMoves := um[k..])
    && (forall j :: 0 <= j < n && j != i ==> after[j] == before[j])
    && (forall t :: 0 <= t < k ==> after[n + t] == ChildFor(game, i, before[i].state, um[t]))
  }

  /** Appends `child` to the arena as the newest child of node `i`, whose
      untried moves become `untried`. */
  function AttachChild<S, M>(nodes: seq<Node<S, M>>, i: nat, child: Node<S, M>, untried: seq<M>): seq<Node<S, M>>
    requires i < |nodes|
  {
    (nodes + [child])[i := nodes[i].(children := nodes[i].children + [|nodes|], untriedMoves := untried)]
  }

  lemma AttachChildKeepsTree<S, M>(nodes: seq<Node<S, M>>, i: nat, child: Node<S, M>, untried: seq<M>)
    requires WellFormed(nodes) && i < |nodes|
    requires child.parent == Some(i) && child.children == [] && child.moveMade.Some?
    ensures WellFormed(AttachChild(nodes, i, child, untried)) && Grows(nodes, AttachChild(nodes, i, child, untried))
  {
    var after := AttachChild(nodes, i, child, untried);
    forall j, k | 0 <= j < |after| && 0 <= k < |after[j].children|
      ensures j < after[j].children[k] < |after| && after[after[j].children[k]].parent == Some(j)
    {
      if j == i && k == |nodes[i].children| {
      } else if j == |nodes| {
      } else {
        assert after[j].children[k] == nodes[j].children[k];
      }
    }
  }

  lemma GrowsTransitive<S, M>(a: seq<Node<S, M>>, b: seq<Node<S, M>>, c: seq<Node<S, M>>)
    requires Grows(a, b) && Grows(b, c)
    ensures Grows(a, c)
  {
  }

  /** Node `i` after `addValue(v)`: one more visit and `v` added to its total. */
  function Counted<S, M>(nodes: seq<Node<S, M>>, i: nat, v: int): seq<Node<S, M>>
    requires i < |nodes|
  {
    nodes[i := nodes[i].(visits := nodes[i].visits + 1, totalValue := nodes[i].totalValue + v)]
  }

  /** `addValue` keeps the arena a tree, and visits only grow. */
  lemma CountedKeepsTree<S, M>(nodes: seq<Node<S, M>>, i: nat, v: int)
    requires WellFormed(nodes) && i < |nodes|
    ensures WellFormed(Counted(nodes, i, v)) && Grows(nodes, Counted(nodes, i, v))
    ensures Counted(nodes, i, v)[i].visits == nodes[i].visits + 1
    ensures forall j :: 0 <= j < |nodes| && j != i ==> Counted(nodes, i, v)[j] == nodes[j]
  {
  }

  /** The arena after the first `k` untried moves of node `i` have become
      children, as `expand` leaves it after `k` turns of its loop. */
  function PartlyExpanded<S, M, P>(game: Game<S, M, P>, before: seq<Node<S, M>>, i: nat, k: nat): seq<Node<S, M>>
    requires i < |before| && k <= Accepted(game, before, i)
  {
    var n, um := |before|, before[i].untriedMoves;
    before[i := before[i].(children := before[i].children + Range(n, k), untriedMoves := um[k..])]
      + seq(k, t requires 0 <= t < k => ChildFor(game, i, before[i].state, um[t]))
  }

  /** One turn of the `expand` loop: removing the move just used from the
      untried moves drops the first of them. */
  lemma PartlyExpandedStep<S, M, P>(game: Game<S, M, P>, before: seq<Node<S, M>>, i: nat, k: nat)
    requires i < |before| && k < Accepted(game, before, i)
    ensures var um, cur := before[i].untriedMoves, PartlyExpanded(game, before, i, k);
      AttachChild(cur, i, ChildFor(game, i, before[i].state, um[k]), RemoveFirst(cur[i].untriedMoves, um[k]))
        == PartlyExpanded(game, before, i, k + 1)
  {
    var n, um, cur := |before|, before[i].untriedMoves, PartlyExpanded(game, before, i, k);
    assert cur[i].untriedMoves == um[k..];
    assert um[k..][1..] == um[k + 1..];
    assert Range(n, k + 1) == Range(n, k) + [n + k];
    var a := AttachChild(cur, i, ChildFor(game, i, before[i].state, um[k]), RemoveFirst(cur[i].untriedMoves, um[k]));
    var b := PartlyExpanded(game, before, i, k + 1);
    assert |a| == |b|;
    forall j | 0 <= j < |a|
      ensures a[j] == b[j]
    {
    }
  }

  /** Before the loop's first turn the arena is as it was. */
  lemma PartlyExpandedNothing<S, M, P>(game: Game<S, M, P>, before: seq<Node<S, M>>, i: nat)
    requires i < |before|
    ensures PartlyExpanded(game, before, i, 0) == before
  {
    var um := before[i].untriedMoves;
    assert Range(|before|, 0) == [] && um[0..] == um && before[i].children + [] == before[i].children;
    assert before[i].(children := before[i].children, untriedMoves := um) == before[i];
  }

  lemma {:induction false} PartlyExpandedKeepsTree<S, M, P>(game: Game<S, M, P>, before: seq<Node<S, M>>, i: nat, k: nat)
    requires WellFormed(before) && i < |before| && k <= Accepted(game, before, i)
    ensures WellFormed(PartlyExpanded(game, before, i, k)) && Grows(before, PartlyExpanded(game, before, i, k))
  {
    var um := before[i].untriedMoves;
    if k == 0 {
      PartlyExpandedNothing(game, before, i);
    } else {
      var cur := PartlyExpanded(game, before, i, k - 1);
      PartlyExpandedKeepsTree(game, before, i, k - 1);
      PartlyExpandedStep(game, before, i, k - 1);
      AttachChildKeepsTree(cur, i, ChildFor(game, i, before[i].state, um[k - 1]), RemoveFirst(cur[i].untriedMoves, um[k - 1]));
      GrowsTransitive(before, cur, PartlyExpanded(game, before, i, k));
    }
  }

  /** `Expanded` describes exactly the arena the `expand` loop leaves when it
      stops at the first refused move. */
  lemma ExpandedIsPartlyExpanded<S, M, P>(game: Game<S, M, P>, before: seq<Node<S, M>>, after: seq<Node<S, M>>, i: nat)
    requires i < |before|
    ensures Expanded(game, before, after, i) <==> after == PartlyExpanded(game, before, i, Accepted(game, before, i))
  {
    var k := Accepted(game, before, i);
    var full := PartlyExpanded(game, before, i, k);
    assert Expanded(game, before, full, i) by {
      var n := |before|;
      forall t | 0 <= t < k
        ensures full[n + t] == ChildFor(game, i, before[i].state, before[i].untriedMoves[t])
      {
      }
    }
    if Expanded(game, before, after, i) {
      assert |after| == |full|;
      forall j | 0 <= j < |after|
        ensures after[j] == full[j]
      {
        if j >= |before| {
          assert after[|before| + (j - |before|)] == ChildFor(game, i, before[i].state, before[i].untriedMoves[j - |before|]);
        }
      }
    }
  }

  /** Expansion keeps the arena a tree and loses nothing of it. */
  lemma ExpandedKeepsTree<S, M, P>(game: Game<S, M, P>, before: seq<Node<S, M>>, after: seq<Node<S, M>>, i: nat)
    requires WellFormed(before) && i < |before| && Expanded(game, before, after, i)
    ensures WellFormed(after) && Grows(before, after)
  {
    ExpandedIsPartlyExpanded(game, before, after, i);
    PartlyExpandedKeepsTree(game, before, i, Accepted(game, before, i));
  }

  class Tree<S, M(==), P> {
    const game: Game<S, M, P>
    var nodes: seq<Node<S, M>>

    ghost predicate Valid()
      reads this
    {
      WellFormed(nodes)
    }

    /** The root: `new MCTSNode<>(game, null, moves, null)`. */
    constructor (game: Game<S, M, P>, state: S, untried: seq<M>)
      ensures Valid() && this.game == game
      ensures nodes == [NewNode(state, None, untried, None)]
    {
      this.game := game;
      nodes := [NewNode(state, None, untried, None)];
    }

    /** `expand`: one child per untried move, in order, each appended to the
        arena and to the node's children and removed from the untried moves,
        until `makeMove` throws; the children made before the throw stay.
        ExpandedKeepsTree shows that this keeps `Valid()`. */
    method Expand(i: nat) returns (outcome: Outcome)
      requires i < |nodes|
      modifies this
      ensures Expanded(game, old(nodes), nodes, i)
      ensures var um, k := old(nodes[i].untriedMoves), Accepted(game, old(nodes), i);
        outcome == if k == |um| then Done else Failed(game.makeMove(old(nodes[i].state), um[k]).error)
    {
      var um := nodes[i].untriedMoves;
      var s := nodes[i].state;
      ghost var accepted := Accepted(game, nodes, i);
      var k := 0;
      PartlyExpandedNothing(game, nodes, i);
      while k < |um|
        invariant k <= accepted && um == old(nodes[i].untriedMoves) && s == old(nodes[i].state)
        invariant nodes == PartlyExpanded(game, old(nodes), i, k)
      {
        var made := game.makeMove(s, um[k]);
        if made.Err? {
          ExpandedIsPartlyExpanded(game, old(nodes), nodes, i);
          return Failed(made.error);
        }
        PartlyExpandedStep(game, old(nodes), i, k);
        nodes := AttachChild(nodes, i, NewNode(made.value, Some(i), game.moves(made.value), Some(um[k])),
                             RemoveFirst(nodes[i].untriedMoves, um[k]));
        k := k + 1;
      }
      ExpandedIsPartlyExpanded(game, old(nodes), nodes, i);
      outcome := Done;
    }

    /** What passing in place does to node `i`: `handleNoAvailableMoves` on
        the state object the node holds turns it into `s`. */
    method SetState(i: nat, s: S)
      requires i < |nodes|
      modifies this
      ensures nodes == old(nodes)[i := old(nodes)[i].(state := s)]
    {
      nodes := nodes[i := nodes[i].(state := s)];
    }

    /** `addValue(v)`: one more visit and `v` added to the total. */
    method AddValue(i: nat, v: int)
      requires i < |nodes|
      modifies this
      ensures nodes == Counted(old(nodes), i, v)
    {
      nodes := nodes[i := nodes[i].(visits := nodes[i].visits + 1, totalValue := nodes[i].totalValue + v)];
    }
  }

  /** Expanding a node with no untried moves leaves the arena as it was. */
  lemma ExpandNothingIsIdentity<S, M, P>(game: Game<S, M, P>, before: seq<Node<S, M>>, after: seq<Node<S, M>>, i: nat)
    requires i < |before| && before[i].untriedMoves == []
    requires Expanded(game, before, after, i)
    ensures after == before
  {
    assert after[i] == before[i];
  }
}
