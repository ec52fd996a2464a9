/** MapBasedStorage.java: a board store backed by a mutable hash map from
    positions to pieces. */
module MapStorage {
  import opened Common

  /** No element occurs twice. */
  predicate Distinct<X(==)>(s: seq<X>)
  {
    forall i, j :: 0 <= i < j < |s| ==> s[i] != s[j]
  }

  class MapBasedStorage<P(==, !new), T> {
    /** The backing map. */
    var board: map<P, T>

    constructor ()
      ensures board == map[]
    {
      board := map[];
    }

    /** A store holding a copy of the given entries. */
    constructor Of(entries: map<P, T>)
      ensures board == entries
    {
      board := entries;
    }

    /** `board.get(position)`: the stored piece, or null when absent. */
    function GetPieceAt(p: P): (r: Option<T>)
      reads this
      ensures r.Some? <==> p in board
      ensures r.Some? ==> r.value == board[p]
    {
      if p in board then Some(board[p]) else None
    }

    /** `board.put`: stores x at p, replacing any earlier entry there. */
    method PlacePieceAt(p: P, x: T)
      modifies this
      ensures board == old(board)[p := x]
    {
      board := board[p := x];
    }

    /** `board.remove`: drops the entry at p, if any. */
    method RemovePieceAt(p: P)
      modifies this
      ensures board == old(board) - {p}
    {
      board := board - {p};
    }

    /** `new ArrayList<>(board.keySet())`: every position once, in an order
        the map chooses. */
    method GetAllPositions() returns (ps: seq<P>)
      ensures Distinct(ps)
      ensures forall p :: p in ps <==> p in board
      ensures |ps| == |board|
    {
      var rest := board.Keys;
      ps := [];
      while rest != {}
        invariant rest <= board.Keys
        invariant forall p :: p in ps <==> p in board && p !in rest
        invariant Distinct(ps)
        invariant |ps| + |rest| == |board.Keys|
        decreases rest
      {
        var p :| p in rest;
        ps := ps + [p];
        rest := rest - {p};
      }
    }

    function HasPieceAt(p: P): (b: bool)
      reads this
      ensures b <==> GetPieceAt(p).Some?
    {
      p in board
    }

    function IsEmpty(): (b: bool)
      reads this
      ensures b <==> Size() == 0
      ensures b <==> forall p :: !HasPieceAt(p)
    {
      if board == map[] then true
      else
        assert exists p :: HasPieceAt(p) by {
          assert board.Keys != {};
          var p :| p in board.Keys;
          assert HasPieceAt(p);
        }
        false
    }

    function Size(): nat
      reads this
    {
      |board|
    }
  }

  /** After storing x at p, p holds x and the other entries are as before. */
  lemma PlaceThenGet<P, T>(m: map<P, T>, p: P, x: T, other: P)
    requires other != p
    ensures p in m[p := x] && m[p := x][p] == x
    ensures (other in m[p := x]) == (other in m)
    ensures other in m ==> m[p := x][other] == m[other]
  {
  }

  /** Storing grows the map by one exactly when the position was free. */
  lemma PlaceSize<P, T>(m: map<P, T>, p: P, x: T)
    ensures |m[p := x]| == if p in m then |m| else |m| + 1
  {
    if p in m {
      assert m[p := x].Keys == m.Keys;
    } else {
      assert m[p := x].Keys == m.Keys + {p};
    }
  }

  /** Removing drops the position, shrinks the map by one when it was there,
      changes nothing when it was not, and keeps every other entry. */
  lemma RemoveSize<P, T>(m: map<P, T>, p: P, other: P)
    requires other != p
    ensures p !in m - {p}
    ensures |m - {p}| == if p in m then |m| - 1 else |m|
    ensures p !in m ==> m - {p} == m
    ensures (other in m - {p}) == (other in m)
    ensures other in m ==> (m - {p})[other] == m[other]
  {
    if p in m {
      assert (m - {p}).Keys == m.Keys - {p};
    } else {
      assert m - {p} == m;
    }
  }
}
