/** Shared vocabulary: optional values, results with the exceptions the Java
    code throws, and Java's 32-bit `int`. */
module Common {

  /** A value that may be absent; `None` stands for Java's `null`. */
  datatype Option<T> = None | Some(value: T)

  /** The exceptions thrown by the modelled code. */
  datatype Error =
    | IllegalArgument     // IllegalArgumentException
    | NullPointer         // NullPointerException from dereferencing a null result
    | ClassCast           // ClassCastException from an option of the wrong type
    | AssertionFailure    // a Java `assert` that does not hold

  /** The outcome of an operation that either yields a value or throws. */
  datatype Result<T> = Ok(value: T) | Err(error: Error)

  /** The outcome of an operation that returns nothing or throws. */
  datatype Outcome = Done | Failed(error: Error)

  const MIN_VALUE: int := -0x8000_0000   // Integer.MIN_VALUE
  const MAX_VALUE: int := 0x7fff_ffff    // Integer.MAX_VALUE

  /** Java's `int`. */
  type Int32 = x: int | MIN_VALUE <= x <= MAX_VALUE

  const WORD: int := 0x1_0000_0000     // 2^32

  /** Java `int` arithmetic: the `int` congruent to x modulo 2^32, which is x
      itself whenever x fits. */
  function Wrap(x: int): (r: Int32)
    ensures MIN_VALUE <= x <= MAX_VALUE ==> r == x
  {
    (x - MIN_VALUE) % WORD + MIN_VALUE
  }

  lemma WrapCongruence(x: int)
    ensures (Wrap(x) - x) % WORD == 0
  {
  }

  lemma {:induction false} ShiftMod(a: int, k: int)
    ensures (a + k * WORD) % WORD == a % WORD
    decreases Abs(k)
  {
    if k > 0 {
      ShiftMod(a, k - 1);
      assert a + k * WORD == (a + (k - 1) * WORD) + WORD;
    } else if k < 0 {
      ShiftMod(a, k + 1);
      assert a + k * WORD == (a + (k + 1) * WORD) - WORD;
    }
  }

  /** Numbers congruent modulo 2^32 wrap to the same `int`. */
  lemma WrapCongruent(x: int, y: int)
    requires (x - y) % WORD == 0
    ensures Wrap(x) == Wrap(y)
  {
    WrapCongruence(x);
    WrapCongruence(y);
    var a := (Wrap(x) - x) / WORD;
    var b := (Wrap(y) - y) / WORD;
    var c := (x - y) / WORD;
    assert Wrap(x) - x == a * WORD;
    assert Wrap(y) - y == b * WORD;
    assert x - y == c * WORD;
    assert Wrap(x) - Wrap(y) == (a - b + c) * WORD;
  }

  /** Adding to a wrapped sum wraps like adding to the exact sum: a Java
      accumulation of `int`s ends at the wrapped exact total. */
  lemma WrapAdd(x: int, y: int)
    ensures Wrap(Wrap(x) + y) == Wrap(x + y)
  {
    WrapCongruence(x);
    var k := (Wrap(x) - x) / WORD;
    assert Wrap(x) - x == k * WORD;
    assert (Wrap(x) + y) - (x + y) == k * WORD;
    ShiftMod(0, k);
    WrapCongruent(Wrap(x) + y, x + y);
  }

  /** One step of a Java accumulation: a running total w that wraps the exact
      total x, plus y, wraps the new exact total z. */
  lemma WrapStep(w: int, x: int, y: int, z: int)
    requires w == Wrap(x) && z == x + y
    ensures Wrap(w + y) == Wrap(z)
  {
    WrapAdd(x, y);
  }

  /** A wrapped total goes on wrapping any other form of the same exact total. */
  lemma WrapRestate(w: int, x: int, z: int)
    requires w == Wrap(x) && z == x
    ensures w == Wrap(z)
  {
  }

  /** Adding two wrapped numbers wraps like adding the exact ones. */
  lemma WrapSum(x: int, y: int)
    ensures Wrap(Wrap(x) + Wrap(y)) == Wrap(x + y)
  {
    WrapAdd(y, Wrap(x));
    WrapAdd(x, y);
  }

  function Max(a: int, b: int): (m: int)
    ensures m >= a && m >= b && (m == a || m == b)
  {
    if a >= b then a else b
  }

  function Min(a: int, b: int): (m: int)
    ensures m <= a && m <= b && (m == a || m == b)
  {
    if a <= b then a else b
  }

  /** Math.abs on mathematical integers. */
  function Abs(x: int): (a: nat)
    ensures a == x || a == -x
  {
    if x < 0 then -x else x
  }

  /** Removes the first occurrence of `x`, as `List.remove(Object)` does. */
  function RemoveFirst<T(==)>(s: seq<T>, x: T): (r: seq<T>)
    ensures x in s ==> |r| == |s| - 1
    ensures x !in s ==> r == s
    ensures forall y :: y in r ==> y in s
  {
    if s == [] then []
    else if s[0] == x then s[1..]
    else [s[0]] + RemoveFirst(s[1..], x)
  }

  /** Pushing onto a list that is a prefix followed by what was pushed so far. */
  lemma PushOne<T>(prefix: seq<T>, pushed: seq<T>, list: seq<T>, x: T)
    requires list == prefix + pushed
    ensures list + [x] == prefix + (pushed + [x])
    ensures forall y :: y in list ==> y in list + [x]
  {
  }
}
