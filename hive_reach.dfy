/** Walks over occupied hexes, the notion the rule engine's breadth-first
    searches compute, and the facts about them those searches rely on. */
module HiveReach {
  import opened Common
  import opened HexGrid
  import opened HiveTypes
  import opened HiveBoard

  /** Two hexes that share an edge. */
  ghost predicate Adjacent(a: Hex, c: Hex)
  {
    HexDistance(a, c) == 1
  }

  lemma AdjacentSymmetric(a: Hex, c: Hex)
    ensures Adjacent(a, c) == Adjacent(c, a)
  {
    DistanceSymmetric(a, c);
  }

  /** A walk from path[0] in which every later hex is occupied, is not the
      skipped hex, and is adjacent to the hex before it. */
  ghost predicate IsWalk(b: Board, skip: Option<Hex>, path: seq<Hex>)
  {
    && |path| >= 1
    && (forall i :: 1 <= i < |path| ==> path[i] in b && Some(path[i]) != skip)
    && (forall i :: 1 <= i < |path| ==> Adjacent(path[i - 1], path[i]))
  }

  /** p is reached from start through occupied hexes, avoiding skip. */
  ghost predicate Reach(b: Board, start: Hex, skip: Option<Hex>, p: Hex)
  {
    exists path {:trigger IsWalk(b, skip, path)} :: IsWalk(b, skip, path) && path[0] == start && path[|path| - 1] == p
  }

  lemma ReachStart(b: Board, start: Hex, skip: Option<Hex>)
    ensures Reach(b, start, skip, start)
  {
    assert IsWalk(b, skip, [start]);
  }

  /** A walk extends to an occupied, non-skipped neighbour of its end. */
  lemma ReachStep(b: Board, start: Hex, skip: Option<Hex>, x: Hex, n: Hex)
    requires Reach(b, start, skip, x)
    requires Adjacent(x, n) && n in b && Some(n) != skip
    ensures Reach(b, start, skip, n)
  {
    var path :| IsWalk(b, skip, path) && path[0] == start && path[|path| - 1] == x;
    var longer := path + [n];
    forall i | 1 <= i < |longer|
      ensures longer[i] in b && Some(longer[i]) != skip && Adjacent(longer[i - 1], longer[i])
    {
      if i < |path| {
        assert longer[i] == path[i] && longer[i - 1] == path[i - 1];
      }
    }
    assert IsWalk(b, skip, longer);
  }

  /** d holds every occupied, non-skipped neighbour of its members. */
  ghost predicate Closed(b: Board, skip: Option<Hex>, d: set<Hex>)
  {
    forall x, k :: x in d && 0 <= k < 6 && HexNeighbour(x, k) in b && Some(HexNeighbour(x, k)) != skip ==>
      HexNeighbour(x, k) in d
  }

  lemma {:induction false} WalkInside(b: Board, skip: Option<Hex>, path: seq<Hex>, d: set<Hex>)
    requires IsWalk(b, skip, path) && path[0] in d && Closed(b, skip, d)
    ensures path[|path| - 1] in d
    decreases |path|
  {
    if |path| > 1 {
      var shorter := path[..|path| - 1];
      assert IsWalk(b, skip, shorter);
      WalkInside(b, skip, shorter, d);
      var x, n := path[|path| - 2], path[|path| - 1];
      assert Adjacent(x, n);
      AdjacentIsNeighbour(x, n);
      var k :| 0 <= k < 6 && n == HexNeighbour(x, k);
    }
  }

  /** A closed set that holds start holds every hex reached from start. */
  lemma ClosedContainsReach(b: Board, start: Hex, skip: Option<Hex>, d: set<Hex>)
    requires start in d && Closed(b, skip, d)
    ensures forall p :: Reach(b, start, skip, p) ==> p in d
  {
    forall p | Reach(b, start, skip, p)
      ensures p in d
    {
      var path :| IsWalk(b, skip, path) && path[0] == start && path[|path| - 1] == p;
      WalkInside(b, skip, path, d);
    }
  }

  /** Between occupied, non-skipped hexes, reachability goes both ways. */
  lemma ReachSymmetric(b: Board, s: Hex, skip: Option<Hex>, p: Hex)
    requires Reach(b, s, skip, p) && s in b && Some(s) != skip
    ensures Reach(b, p, skip, s)
  {
    var path :| IsWalk(b, skip, path) && path[0] == s && path[|path| - 1] == p;
    var n := |path|;
    var back := seq(n, i requires 0 <= i < n => path[n - 1 - i]);
    forall i | 1 <= i < n
      ensures back[i] in b && Some(back[i]) != skip && Adjacent(back[i - 1], back[i])
    {
      var j := n - 1 - i;
      assert back[i] == path[j] && back[i - 1] == path[j + 1];
      assert Adjacent(path[j], path[j + 1]);
      AdjacentSymmetric(path[j], path[j + 1]);
    }
    assert IsWalk(b, skip, back);
  }

  lemma ReachTransitive(b: Board, s: Hex, skip: Option<Hex>, m: Hex, p: Hex)
    requires Reach(b, s, skip, m) && Reach(b, m, skip, p)
    ensures Reach(b, s, skip, p)
  {
    var first :| IsWalk(b, skip, first) && first[0] == s && first[|first| - 1] == m;
    var second :| IsWalk(b, skip, second) && second[0] == m && second[|second| - 1] == p;
    var whole := first + second[1..];
    forall i | 1 <= i < |whole|
      ensures Adjacent(whole[i - 1], whole[i])
    {
      if i >= |first| {
        assert whole[i] == second[i - |first| + 1];
        assert whole[i - 1] == second[i - |first|];
      }
    }
    assert IsWalk(b, skip, whole);
  }

  /** `isConnected`'s answer from a start: every occupied hex other than skip
      is reached from start without passing skip. */
  ghost predicate ConnectedFrom(b: Board, start: Hex, skip: Hex)
  {
    forall p :: p in b ==> p == skip || Reach(b, start, Some(skip), p)
  }

  /** The hive with the hex skip lifted out holds together: every two other
      occupied hexes are joined by a walk avoiding skip. */
  ghost predicate HiveConnectedWithout(b: Board, skip: Hex)
  {
    forall s, p :: s in b && p in b && s != skip && p != skip ==> Reach(b, s, Some(skip), p)
  }

  /** From any occupied start other than skip the answer is the same, so the
      random start `isOneHiveWhileMoving` draws does not matter. */
  lemma ConnectedFromAnyStart(b: Board, s: Hex, skip: Hex)
    requires s in b && s != skip
    ensures ConnectedFrom(b, s, skip) <==> HiveConnectedWithout(b, skip)
  {
    if ConnectedFrom(b, s, skip) {
      forall x, p | x in b && p in b && x != skip && p != skip
        ensures Reach(b, x, Some(skip), p)
      {
        ReachSymmetric(b, s, Some(skip), x);
        ReachTransitive(b, x, Some(skip), s, p);
      }
    }
  }

  /** How far into the queue the first not yet visited hex lies. */
  function FirstFresh(q: seq<Hex>, visited: set<Hex>): nat
  {
    if q == [] || q[0] !in visited then 0 else 1 + FirstFresh(q[1..], visited)
  }

  /** Appending unvisited hexes leaves the first fresh position where it was. */
  lemma {:induction false} FirstFreshAppend(q: seq<Hex>, more: seq<Hex>, visited: set<Hex>)
    requires forall x :: x in more ==> x !in visited
    ensures FirstFresh(q + more, visited) == FirstFresh(q, visited)
  {
    if q == [] {
      assert q + more == more;
    } else {
      assert (q + more)[1..] == q[1..] + more;
      if q[0] in visited {
        FirstFreshAppend(q[1..], more, visited);
      }
    }
  }
}
