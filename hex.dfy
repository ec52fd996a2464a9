/** Cube coordinates on the hexagonal grid (Hex.java). Coordinates are
    mathematical integers; the grid the game uses stays far below 32 bits. */
module HexGrid {
  import opened Common

  /** Raw cube coordinates; only those with q + r + s == 0 name a hex. */
  datatype Cube = Cube(q: int, r: int, s: int)

  /** The constructor's assertion q + r + s == 0, enforced by the type: every
      value of type Hex, and every result of the operations below, meets it. */
  type Hex = c: Cube | c.q + c.r + c.s == 0 witness Cube(0, 0, 0)

  const ORIGIN: Hex := Cube(0, 0, 0)

  /** The six unit directions, in the order of the `hexDirections` table. */
  const DIRECTIONS: seq<Hex> := [Cube(1, 0, -1), Cube(1, -1, 0), Cube(0, -1, 1),
                                 Cube(-1, 0, 1), Cube(-1, 1, 0), Cube(0, 1, -1)]

  function HexAdd(a: Hex, b: Hex): Hex
  {
    Cube(a.q + b.q, a.r + b.r, a.s + b.s)
  }

  function HexSubtract(a: Hex, b: Hex): Hex
  {
    Cube(a.q - b.q, a.r - b.r, a.s - b.s)
  }

  function HexMultiply(a: Hex, k: int): Hex
  {
    Cube(a.q * k, a.r * k, a.s * k)
  }

  /** Subtraction undoes addition, and adding the origin changes nothing. */
  lemma AddSubtractInverse(a: Hex, b: Hex)
    ensures HexSubtract(HexAdd(a, b), b) == a
    ensures HexAdd(HexSubtract(a, b), b) == a
    ensures HexAdd(a, ORIGIN) == a && HexSubtract(a, a) == ORIGIN
  {
  }

  /** `hexLength`: half the sum of the absolute coordinates. On a hex that sum
      is even, so the division loses nothing, and the length is the largest
      absolute coordinate. */
  function HexLength(h: Hex): (n: nat)
    ensures 2 * n == Abs(h.q) + Abs(h.r) + Abs(h.s)
    ensures n == 0 <==> h == ORIGIN
  {
    (Abs(h.q) + Abs(h.r) + Abs(h.s)) / 2
  }

  /** The length of a hex is its largest absolute coordinate. */
  lemma LengthIsLargestCoordinate(h: Hex)
    ensures HexLength(h) == Max(Abs(h.q), Max(Abs(h.r), Abs(h.s)))
  {
  }

  function HexDistance(a: Hex, b: Hex): nat
  {
    HexLength(HexSubtract(a, b))
  }

  /** Distance is symmetric and zero exactly between equal hexes. */
  lemma DistanceSymmetric(a: Hex, b: Hex)
    ensures HexDistance(a, b) == HexDistance(b, a)
    ensures HexDistance(a, b) == 0 <==> a == b
  {
    assert HexSubtract(b, a) == HexMultiply(HexSubtract(a, b), -1);
  }

  /** The triangle inequality. */
  lemma DistanceTriangle(a: Hex, b: Hex, c: Hex)
    ensures HexDistance(a, c) <= HexDistance(a, b) + HexDistance(b, c)
  {
    var u, v, w := HexSubtract(a, b), HexSubtract(b, c), HexSubtract(a, c);
    AbsAdd(u.q, v.q);
    AbsAdd(u.r, v.r);
    AbsAdd(u.s, v.s);
    assert w.q == u.q + v.q && w.r == u.r + v.r && w.s == u.s + v.s;
    assert 2 * HexLength(w) <= 2 * HexLength(u) + 2 * HexLength(v);
  }

  lemma AbsAdd(x: int, y: int)
    ensures Abs(x + y) <= Abs(x) + Abs(y)
  {
  }

  lemma AbsMul(x: int, k: int)
    ensures Abs(x * k) == Abs(x) * Abs(k)
  {
    if x < 0 && k < 0 {
      assert x * k == (-x) * (-k);
    } else if x < 0 {
      assert -(x * k) == (-x) * k;
    } else if k < 0 {
      assert -(x * k) == x * (-k);
    }
  }

  /** Halving a sum of three terms each scaled by k. */
  lemma ScaledHalf(x: int, y: int, z: int, k: int, len: int, n: int)
    requires 2 * n == x + y + z && 2 * len == x * k + y * k + z * k
    ensures len == k * n
  {
    assert x * k + y * k + z * k == (x + y + z) * k;
    assert (2 * n) * k == 2 * (k * n);
  }

  /** Scaling a hex by k scales its length by |k|. */
  lemma MultiplyScalesLength(a: Hex, k: int)
    ensures HexLength(HexMultiply(a, k)) == Abs(k) * HexLength(a)
  {
    AbsMul(a.q, k);
    AbsMul(a.r, k);
    AbsMul(a.s, k);
    ScaledHalf(Abs(a.q), Abs(a.r), Abs(a.s), Abs(k), HexLength(HexMultiply(a, k)), HexLength(a));
  }

  /** `hexDirection`; the caller must pass 0 <= d < 6. */
  function HexDirection(d: int): Hex
    requires 0 <= d < 6
  {
    DIRECTIONS[d]
  }

  /** Every direction is a unit vector. */
  lemma DirectionIsUnit(d: int)
    requires 0 <= d < 6
    ensures HexLength(HexDirection(d)) == 1
  {
  }

  /** Opposite directions, three apart, cancel out. */
  lemma OppositeDirections(d: int)
    requires 0 <= d < 6
    ensures HexAdd(HexDirection(d), HexDirection((d + 3) % 6)) == ORIGIN
  {
    if d < 3 {
      assert (d + 3) % 6 == d + 3;
    } else {
      assert (d + 3) % 6 == d - 3;
    }
  }

  /** The unit vectors are exactly the six directions. */
  lemma UnitIsDirection(v: Hex)
    requires HexLength(v) == 1
    ensures v in DIRECTIONS
  {
  }

  function HexNeighbour(h: Hex, d: int): Hex
    requires 0 <= d < 6
  {
    HexAdd(h, HexDirection(d))
  }

  /** A neighbour lies at distance 1, measured either way. */
  lemma NeighbourIsAdjacent(h: Hex, d: int)
    requires 0 <= d < 6
    ensures HexDistance(HexNeighbour(h, d), h) == 1 && HexDistance(h, HexNeighbour(h, d)) == 1
  {
    var n := HexNeighbour(h, d);
    assert HexSubtract(n, h) == HexDirection(d);
    DirectionIsUnit(d);
    DistanceSymmetric(n, h);
  }

  /** The six neighbours of a hex are pairwise distinct. */
  lemma NeighboursDistinct(h: Hex, d: int, e: int)
    requires 0 <= d < 6 && 0 <= e < 6 && d != e
    ensures HexNeighbour(h, d) != HexNeighbour(h, e)
  {
  }

  /** Every hex at distance 1 is one of the six neighbours. */
  lemma AdjacentIsNeighbour(a: Hex, b: Hex)
    requires HexDistance(a, b) == 1
    ensures exists d :: 0 <= d < 6 && b == HexNeighbour(a, d)
  {
    var v := HexSubtract(b, a);
    DistanceSymmetric(a, b);
    UnitIsDirection(v);
    var d :| 0 <= d < 6 && DIRECTIONS[d] == v;
    assert b == HexNeighbour(a, d);
  }

  /** `getNeighbours()`: the six neighbours in direction order. */
  function Neighbours(h: Hex): (ns: seq<Hex>)
    ensures |ns| == 6
    ensures forall d :: 0 <= d < 6 ==> ns[d] == HexNeighbour(h, d)
  {
    [HexNeighbour(h, 0), HexNeighbour(h, 1), HexNeighbour(h, 2),
     HexNeighbour(h, 3), HexNeighbour(h, 4), HexNeighbour(h, 5)]
  }

  /** The neighbour list holds exactly the hexes at distance 1. */
  lemma NeighboursAreAdjacent(a: Hex, b: Hex)
    ensures b in Neighbours(a) <==> HexDistance(a, b) == 1
  {
    if HexDistance(a, b) == 1 {
      AdjacentIsNeighbour(a, b);
    }
    if b in Neighbours(a) {
      var d :| 0 <= d < 6 && b == Neighbours(a)[d];
      NeighbourIsAdjacent(a, d);
    }
  }

  /** `hexDirectionAsIndex`: the position of a vector in the direction table,
      or -1 when it is not a unit direction. */
  function DirectionIndex(v: Hex): (i: int)
    ensures -1 <= i < 6
    ensures i >= 0 ==> HexDirection(i) == v
    ensures i == -1 <==> HexLength(v) != 1
  {
    if v == DIRECTIONS[0] then 0
    else if v == DIRECTIONS[1] then 1
    else if v == DIRECTIONS[2] then 2
    else if v == DIRECTIONS[3] then 3
    else if v == DIRECTIONS[4] then 4
    else if v == DIRECTIONS[5] then 5
    else
      assert HexLength(v) != 1 by {
        if HexLength(v) == 1 { UnitIsDirection(v); }
      }
      -1
  }
}
