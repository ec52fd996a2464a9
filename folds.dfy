/** Folds over finite sets, used to specify loops over a hash map's entries,
    which visit the keys in an order the map chooses. */
module Folds {

  /** The sum of f over the keys. */
  ghost function Sum<K>(keys: set<K>, f: K -> int): int
    decreases keys
  {
    if keys == {} then 0
    else
      var k :| k in keys;
      f(k) + Sum(keys - {k}, f)
  }

  /** The sum does not depend on which key is taken first. */
  lemma {:induction false} SumRemove<K>(keys: set<K>, f: K -> int, k: K)
    requires k in keys
    ensures Sum(keys, f) == f(k) + Sum(keys - {k}, f)
    decreases keys
  {
    var j :| j in keys && Sum(keys, f) == f(j) + Sum(keys - {j}, f);
    if j != k {
      SumRemove(keys - {j}, f, k);
      SumRemove(keys - {k}, f, j);
      assert keys - {j} - {k} == keys - {k} - {j};
    }
  }

  /** Adding a key adds its value. */
  lemma SumAdd<K>(keys: set<K>, f: K -> int, k: K)
    requires k !in keys
    ensures Sum(keys + {k}, f) == Sum(keys, f) + f(k)
  {
    SumRemove(keys + {k}, f, k);
    assert (keys + {k}) - {k} == keys;
  }

  /** Functions that agree on the keys have the same sum. */
  lemma {:induction false} SumAgree<K>(keys: set<K>, f: K -> int, g: K -> int)
    requires forall k :: k in keys ==> f(k) == g(k)
    ensures Sum(keys, f) == Sum(keys, g)
    decreases keys
  {
    if keys != {} {
      var k :| k in keys && Sum(keys, f) == f(k) + Sum(keys - {k}, f);
      SumAgree(keys - {k}, f, g);
      SumRemove(keys, g, k);
    }
  }

  /** The union, counting multiplicities, of f over the keys. */
  ghost function Bag<K, X>(keys: set<K>, f: K -> multiset<X>): multiset<X>
    decreases keys
  {
    if keys == {} then multiset{}
    else
      var k :| k in keys;
      f(k) + Bag(keys - {k}, f)
  }

  /** The union does not depend on which key is taken first. */
  lemma {:induction false} BagRemove<K, X>(keys: set<K>, f: K -> multiset<X>, k: K)
    requires k in keys
    ensures Bag(keys, f) == f(k) + Bag(keys - {k}, f)
    decreases keys
  {
    var j :| j in keys && Bag(keys, f) == f(j) + Bag(keys - {j}, f);
    if j != k {
      BagRemove(keys - {j}, f, k);
      BagRemove(keys - {k}, f, j);
      assert keys - {j} - {k} == keys - {k} - {j};
    }
  }

  /** Functions that agree on the keys have the same union. */
  lemma {:induction false} BagAgree<K, X>(keys: set<K>, f: K -> multiset<X>, g: K -> multiset<X>)
    requires forall k :: k in keys ==> f(k) == g(k)
    ensures Bag(keys, f) == Bag(keys, g)
    decreases keys
  {
    if keys != {} {
      var k :| k in keys && Bag(keys, f) == f(k) + Bag(keys - {k}, f);
      BagAgree(keys - {k}, f, g);
      BagRemove(keys, g, k);
    }
  }

  /** An element is in the union exactly when it is in some key's part. */
  lemma {:induction false} BagMember<K, X>(keys: set<K>, f: K -> multiset<X>, x: X)
    ensures x in Bag(keys, f) <==> exists k :: k in keys && x in f(k)
    decreases keys
  {
    if keys != {} {
      var k :| k in keys && Bag(keys, f) == f(k) + Bag(keys - {k}, f);
      BagMember(keys - {k}, f, x);
    }
  }
}
