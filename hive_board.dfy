/** The Hive board (HiveBoardState.java): a store mapping each hex to the stack
    of tiles on it. A stack is a sequence whose last tile is its top. */
module HiveBoard {
  import opened Common
  import opened HexGrid
  import opened HiveTypes
  import opened Folds
  import opened MapStorage

  /** The stacks on the board, by hex. */
  type Board = map<Hex, seq<HiveTile>>

  /** The invariant the board keeps: no stored stack is empty. */
  ghost predicate WellStacked(b: Board)
  {
    forall p :: p in b ==> b[p] != []
  }

  /** `getPieceAt`: the top tile, or null for a missing or empty stack. */
  function Top(b: Board, p: Hex): Option<HiveTile>
  {
    if p in b && b[p] != [] then Some(b[p][|b[p]| - 1]) else None
  }

  /** The top tile of an occupied hex of a board that keeps its invariant. */
  function TopOf(b: Board, p: Hex): (t: HiveTile)
    requires WellStacked(b) && p in b
    ensures Top(b, p) == Some(t) && t in b[p]
  {
    b[p][|b[p]| - 1]
  }

  /** Every top tile names the hex it sits on; placements and moves keep
      this when the tile they put down names its destination. */
  ghost predicate Located(b: Board)
    requires WellStacked(b)
  {
    forall p :: p in b ==> TopOf(b, p).hex == p
  }

  /** `placePiece`: push the tile, or start a new stack with it. */
  function Placed(b: Board, p: Hex, t: HiveTile): Board
  {
    b[p := (if p in b then b[p] else []) + [t]]
  }

  /** `removePieceAt`: pop the top tile, dropping the hex once its stack is
      empty; a missing or empty stack throws IllegalArgumentException. */
  function Removed(b: Board, p: Hex): Result<Board>
  {
    if p !in b || b[p] == [] then Err(IllegalArgument)
    else
      var rest := b[p][..|b[p]| - 1];
      Ok(if rest == [] then b - {p} else b[p := rest])
  }

  function StackBag(b: Board, p: Hex): multiset<HiveTile>
  {
    if p in b then multiset(b[p]) else multiset{}
  }

  function StackBags(b: Board): Hex -> multiset<HiveTile>
  {
    (p: Hex) => StackBag(b, p)
  }

  /** Every tile on the board, buried ones included. */
  ghost function Tiles(b: Board): multiset<HiveTile>
  {
    Bag(b.Keys, StackBags(b))
  }

  /** `getPieceCount`: the sum of the stack sizes. */
  ghost function PieceCount(b: Board): nat
  {
    |Tiles(b)|
  }

  /** A tile is on the board exactly when some stack holds it. */
  lemma TilesMember(b: Board, t: HiveTile)
    ensures t in Tiles(b) <==> exists p :: p in b && t in b[p]
  {
    BagMember(b.Keys, StackBags(b), t);
  }

  /** placePiece puts the tile on top at p, and keeps every other hex as it
      was and the board well stacked. */
  lemma PlacedShape(b: Board, p: Hex, t: HiveTile)
    ensures Top(Placed(b, p, t), p) == Some(t)
    ensures forall q :: q != p ==> (q in Placed(b, p, t) <==> q in b) && (q in b ==> Placed(b, p, t)[q] == b[q])
    ensures WellStacked(b) ==> WellStacked(Placed(b, p, t))
  {
  }

  /** placePiece adds exactly the placed tile to the board. */
  lemma PlacedTiles(b: Board, p: Hex, t: HiveTile)
    ensures Tiles(Placed(b, p, t)) == Tiles(b) + multiset{t}
    ensures PieceCount(Placed(b, p, t)) == PieceCount(b) + 1
  {
    var b' := Placed(b, p, t);
    var f, g := StackBags(b), StackBags(b');
    assert forall q :: q in b.Keys - {p} ==> f(q) == g(q);
    if p in b {
      assert b'.Keys == b.Keys;
      BagRemove(b.Keys, f, p);
      BagRemove(b.Keys, g, p);
      BagAgree(b.Keys - {p}, f, g);
      assert g(p) == f(p) + multiset{t};
    } else {
      assert b'.Keys == b.Keys + {p};
      BagRemove(b'.Keys, g, p);
      assert b'.Keys - {p} == b.Keys;
      BagAgree(b.Keys, f, g);
      assert g(p) == multiset{t};
    }
  }

  /** removePieceAt succeeds exactly when p has a top tile; it then takes
      exactly that tile off the board, keeps every other hex and keeps the
      board well stacked. */
  lemma RemovedEffect(b: Board, p: Hex)
    ensures Removed(b, p).Ok? <==> Top(b, p).Some?
    ensures Removed(b, p).Err? ==> Removed(b, p).error == IllegalArgument
    ensures Removed(b, p).Ok? ==>
      var b' := Removed(b, p).value;
      && Tiles(b') + multiset{Top(b, p).value} == Tiles(b)
      && PieceCount(b') == PieceCount(b) - 1
      && (WellStacked(b) ==> WellStacked(b'))
      && (forall q :: q != p ==> (q in b' <==> q in b) && (q in b ==> b'[q] == b[q]))
  {
    if Removed(b, p).Ok? {
      var b' := Removed(b, p).value;
      var s := b[p];
      var rest := s[..|s| - 1];
      assert s == rest + [s[|s| - 1]];
      var f, g := StackBags(b), StackBags(b');
      BagRemove(b.Keys, f, p);
      assert f(p) == multiset(rest) + multiset{Top(b, p).value};
      if rest == [] {
        assert b'.Keys == b.Keys - {p};
        BagAgree(b'.Keys, f, g);
      } else {
        assert b'.Keys == b.Keys;
        BagRemove(b.Keys, g, p);
        BagAgree(b.Keys - {p}, f, g);
      }
    }
  }

  /** Placing a tile and then removing it restores a well-stacked board. */
  lemma PlaceThenRemove(b: Board, p: Hex, t: HiveTile)
    requires WellStacked(b)
    ensures Removed(Placed(b, p, t), p) == Ok(b)
  {
    var b' := Placed(b, p, t);
    if p in b {
      assert (b[p] + [t])[..|b[p]|] == b[p];
      assert b'[p := b[p]] == b;
    } else {
      assert b' - {p} == b;
    }
  }

  /** The tiles of a stack that `keep` accepts, bottom to top. */
  function Filter(s: seq<HiveTile>, keep: HiveTile -> bool): seq<HiveTile>
  {
    if s == [] then []
    else Filter(s[..|s| - 1], keep) + if keep(s[|s| - 1]) then [s[|s| - 1]] else []
  }

  lemma {:induction false} FilterCount(s: seq<HiveTile>, keep: HiveTile -> bool, t: HiveTile)
    ensures multiset(Filter(s, keep))[t] == if keep(t) then multiset(s)[t] else 0
  {
    if s != [] {
      FilterCount(s[..|s| - 1], keep, t);
      assert s == s[..|s| - 1] + [s[|s| - 1]];
    }
  }

  function KeptBags(b: Board, keep: HiveTile -> bool): Hex -> multiset<HiveTile>
  {
    (p: Hex) => if p in b then multiset(Filter(b[p], keep)) else multiset{}
  }

  /** The kept tiles of some stacks are their tiles that `keep` accepts. */
  lemma {:induction false} KeptBagCount(keys: set<Hex>, b: Board, keep: HiveTile -> bool, t: HiveTile)
    ensures Bag(keys, KeptBags(b, keep))[t] == if keep(t) then Bag(keys, StackBags(b))[t] else 0
    decreases keys
  {
    if keys != {} {
      var p :| p in keys;
      BagRemove(keys, KeptBags(b, keep), p);
      BagRemove(keys, StackBags(b), p);
      KeptBagCount(keys - {p}, b, keep, t);
      if p in b {
        FilterCount(b[p], keep, t);
      }
    }
  }

  /** The tiles of the board that `keep` accepts, counted with multiplicity. */
  ghost predicate CollectedFrom(tiles: seq<HiveTile>, b: Board, keep: HiveTile -> bool)
  {
    forall t :: multiset(tiles)[t] == if keep(t) then Tiles(b)[t] else 0
  }

  class HiveBoardState {
    const store: MapBasedStorage<Hex, seq<HiveTile>>

    function Contents(): Board
      reads store
    {
      store.board
    }

    ghost predicate Valid()
      reads store
    {
      WellStacked(store.board)
    }

    /** An empty board. */
    constructor ()
      ensures Valid() && Contents() == map[]
      ensures fresh(store)
    {
      store := new MapBasedStorage();
    }

    /** The copy constructor: the same stacks in a store of its own, so later
        changes to either board do not reach the other. */
    constructor Copy(other: HiveBoardState)
      ensures Contents() == other.Contents()
      ensures fresh(store)
    {
      store := new MapBasedStorage.Of(other.store.board);
    }

    function HasTileAtHex(h: Hex): (r: bool)
      reads store
      ensures r <==> h in Contents()
    {
      store.HasPieceAt(h)
    }

    function HasPieceAt(h: Hex): (r: bool)
      reads store
      ensures r <==> HasTileAtHex(h)
    {
      store.HasPieceAt(h)
    }

    /** `getPieceAt`: the top tile of the stack at h. */
    function GetPieceAt(h: Hex): (t: Option<HiveTile>)
      reads store
      ensures t.Some? <==> h in Contents() && Contents()[h] != []
      ensures t.Some? ==> t.value == Contents()[h][|Contents()[h]| - 1]
    {
      match store.GetPieceAt(h)
      case None => None
      case Some(stack) => if stack == [] then None else Some(stack[|stack| - 1])
    }

    function IsBoardEmpty(): (r: bool)
      reads store
      ensures r <==> Contents() == map[]
    {
      store.IsEmpty()
    }

    method PlacePiece(h: Hex, t: HiveTile)
      modifies store
      ensures Contents() == Placed(old(Contents()), h, t)
    {
      if store.HasPieceAt(h) {
        store.PlacePieceAt(h, store.board[h] + [t]);
      } else {
        assert [] + [t] == [t];
        store.PlacePieceAt(h, [t]);
      }
    }

    method RemovePieceAt(h: Hex) returns (o: Outcome)
      modifies store
      ensures Removed(old(Contents()), h).Ok? ==> o == Done && Contents() == Removed(old(Contents()), h).value
      ensures Removed(old(Contents()), h).Err? ==> o == Failed(Removed(old(Contents()), h).error) && Contents() == old(Contents())
    {
      var stack := store.GetPieceAt(h);
      if stack.None? || stack.value == [] {
        return Failed(IllegalArgument);
      }
      var rest := stack.value[..|stack.value| - 1];
      if rest == [] {
        store.RemovePieceAt(h);
      } else {
        store.PlacePieceAt(h, rest);
      }
      return Done;
    }

    method GetAllPositions() returns (ps: seq<Hex>)
      ensures Distinct(ps)
      ensures forall p :: p in ps <==> p in Contents()
      ensures |ps| == |Contents()|
    {
      ps := store.GetAllPositions();
    }

    /** `getPieceCount`: adds up the stack sizes, one hex at a time. */
    /** `getRandomPiece`: the top tile of a randomly drawn position, none on an
        empty board. Stacks are never empty, so the first draw already yields
        a tile; the draw itself is a free choice. */
    method GetRandomPiece() returns (t: Option<HiveTile>)
      requires Valid()
      ensures t.None? <==> Contents() == map[]
      ensures t.Some? ==> exists p :: p in Contents() && t.value == TopOf(Contents(), p)
    {
      var positions := GetAllPositions();
      if positions == [] {
        assert Contents() == map[];
        return None;
      }
      var i :| 0 <= i < |positions|;
      var stack := store.GetPieceAt(positions[i]);
      if stack.None? || stack.value == [] {
        assert false;
        return None;
      }
      t := Some(stack.value[|stack.value| - 1]);
      assert t.value == TopOf(Contents(), positions[i]);
    }

    method GetPieceCount() returns (n: int)
      ensures n == PieceCount(Contents())
    {
      var b := store.board;
      var rest := b.Keys;
      n := 0;
      while rest != {}
        invariant rest <= b.Keys
        invariant n + |Bag(rest, StackBags(b))| == PieceCount(b)
        decreases rest
      {
        var p :| p in rest;
        BagRemove(rest, StackBags(b), p);
        n := n + |b[p]|;
        rest := rest - {p};
      }
    }

    /** The tiles `keep` accepts, stack by stack from bottom to top. */
    method CollectTiles(keep: HiveTile -> bool) returns (tiles: seq<HiveTile>)
      ensures CollectedFrom(tiles, Contents(), keep)
    {
      var b := store.board;
      var rest := b.Keys;
      tiles := [];
      while rest != {}
        invariant rest <= b.Keys
        invariant multiset(tiles) + Bag(rest, KeptBags(b, keep)) == Bag(b.Keys, KeptBags(b, keep))
        decreases rest
      {
        var p :| p in rest;
        BagRemove(rest, KeptBags(b, keep), p);
        var kept := FilterStack(b[p], keep);
        tiles := tiles + kept;
        rest := rest - {p};
      }
      forall t
        ensures multiset(tiles)[t] == if keep(t) then Tiles(b)[t] else 0
      {
        KeptBagCount(b.Keys, b, keep, t);
      }
    }

    /** One stack's tiles that `keep` accepts, bottom to top. */
    static method FilterStack(stack: seq<HiveTile>, keep: HiveTile -> bool) returns (kept: seq<HiveTile>)
      ensures kept == Filter(stack, keep)
    {
      kept := [];
      var j := 0;
      while j < |stack|
        invariant 0 <= j <= |stack|
        invariant kept == Filter(stack[..j], keep)
      {
        assert stack[..j + 1][..j] == stack[..j];
        if keep(stack[j]) {
          kept := kept + [stack[j]];
        }
        j := j + 1;
      }
      assert stack[..j] == stack;
    }

    /** `getAllPiecesOfPlayer`: every tile of the colour, buried ones included. */
    method GetAllPiecesOfPlayer(colour: Colour) returns (tiles: seq<HiveTile>)
      ensures forall t :: multiset(tiles)[t] == if t.colour == colour then Tiles(Contents())[t] else 0
    {
      tiles := CollectTiles((t: HiveTile) => t.colour == colour);
    }

    /** `getQueens`: every queen bee on the board. */
    method GetQueens() returns (queens: seq<HiveTile>)
      ensures forall t :: multiset(queens)[t] == if t.tileType == QueenBee then Tiles(Contents())[t] else 0
    {
      queens := CollectTiles((t: HiveTile) => t.tileType == QueenBee);
    }

    /** `getQueenOfPlayer`: the first queen of the colour met, or null. */
    method GetQueenOfPlayer(colour: Colour) returns (q: Option<HiveTile>)
      ensures q.Some? ==> q.value in Tiles(Contents()) && q.value.tileType == QueenBee && q.value.colour == colour
      ensures q.None? <==> forall t :: t in Tiles(Contents()) ==> !(t.tileType == QueenBee && t.colour == colour)
    {
      var b := store.board;
      var rest := b.Keys;
      while rest != {}
        invariant rest <= b.Keys
        invariant forall p, t :: p in b.Keys - rest && t in b[p] ==> !(t.tileType == QueenBee && t.colour == colour)
        decreases rest
      {
        var p :| p in rest;
        var stack := b[p];
        var j := 0;
        while j < |stack|
          invariant 0 <= j <= |stack|
          invariant forall i :: 0 <= i < j ==> !(stack[i].tileType == QueenBee && stack[i].colour == colour)
        {
          if stack[j].tileType == QueenBee && stack[j].colour == colour {
            TilesMember(b, stack[j]);
            return Some(stack[j]);
          }
          j := j + 1;
        }
        rest := rest - {p};
      }
      forall t | t in Tiles(b)
        ensures !(t.tileType == QueenBee && t.colour == colour)
      {
        TilesMember(b, t);
      }
      return None;
    }
  }
}
