/**
 The memory pool as the block assembler sees it: a finite directed acyclic graph of
 transactions, each with its set of in-pool ancestors, and sums over sets of transactions.
 */
module Mempool {
  import opened Basics

  type Tx = nat

  datatype TxInfo = TxInfo(
    parents: set<Tx>, ancestors: set<Tx>,
    size: nat, weight: nat, sigOps: nat, serSize: nat, isFinal: bool, hasWitness: bool,
    sizeWithAncestors: nat, sigOpsWithAncestors: nat)

  type Pool = map<Tx, TxInfo>

  const WITNESS_SCALE_FACTOR := 4

  /** Ancestor sets are those of an acyclic graph, transitively closed and generated by the parents. */
  ghost predicate Acyclic(pool: Pool) {
    && (forall t :: t in pool ==> t !in pool[t].ancestors && pool[t].parents <= pool[t].ancestors)
    && (forall t, a :: t in pool && a in pool[t].ancestors ==> a in pool && pool[a].ancestors <= pool[t].ancestors)
    && (forall t, a :: t in pool && a in pool[t].ancestors ==>
          a in pool[t].parents || exists p :: p in pool[t].parents && p in pool && a in pool[p].ancestors)
  }

  /** Sizes are positive and bound the weights; the sums kept with an entry are exact. */
  ghost predicate Measured(pool: Pool) {
    && (forall t :: t in pool ==> 0 < pool[t].size && pool[t].weight <= WITNESS_SCALE_FACTOR * pool[t].size)
    && (forall t :: t in pool ==>
          && pool[t].sizeWithAncestors == Sum(Sizes(pool), Family(pool, t))
          && pool[t].sigOpsWithAncestors == Sum(SigOps(pool), Family(pool, t)))
  }

  ghost predicate ValidPool(pool: Pool) { Acyclic(pool) && Measured(pool) }

  /** `t` with everything it depends on. */
  function Family(pool: Pool, t: Tx): set<Tx>
    requires t in pool
  {
    pool[t].ancestors + {t}
  }

  function Children(pool: Pool, t: Tx): set<Tx> {
    set c | c in pool && t in pool[c].parents
  }

  /** `t` with everything that depends on it. */
  function Descendants(pool: Pool, t: Tx): set<Tx> {
    set d | d in pool && (d == t || t in pool[d].ancestors)
  }

  /** The number of in-pool ancestors, counting the transaction itself. */
  function CountWithAncestors(pool: Pool, t: Tx): nat
    requires t in pool
  {
    |Family(pool, t)|
  }

  /** Ancestors have strictly fewer ancestors. */
  lemma CountGrows(pool: Pool, t: Tx, a: Tx)
    requires ValidPool(pool) && t in pool && a in pool[t].ancestors
    ensures a in pool && CountWithAncestors(pool, a) < CountWithAncestors(pool, t)
  {
    assert Family(pool, a) <= Family(pool, t) - {t};
    SubsetCount(Family(pool, a), Family(pool, t) - {t});
  }

  // ---------- sums ----------

  ghost function Sum(f: map<Tx, nat>, s: set<Tx>): nat {
    if s == {} then 0
    else
      var x :| x in s;
      (if x in f then f[x] else 0) + Sum(f, s - {x})
  }

  function At(f: map<Tx, nat>, x: Tx): nat { if x in f then f[x] else 0 }

  lemma {:induction false} SumRemove(f: map<Tx, nat>, s: set<Tx>, x: Tx)
    requires x in s
    ensures Sum(f, s) == At(f, x) + Sum(f, s - {x})
    decreases |s|
  {
    var y :| y in s && Sum(f, s) == At(f, y) + Sum(f, s - {y});
    if y != x {
      SumRemove(f, s - {y}, x);
      SumRemove(f, s - {x}, y);
      assert s - {y} - {x} == s - {x} - {y};
    }
  }

  lemma {:induction false} SumUnion(f: map<Tx, nat>, a: set<Tx>, b: set<Tx>)
    requires a !! b
    ensures Sum(f, a + b) == Sum(f, a) + Sum(f, b)
    decreases |b|
  {
    if b == {} {
      assert a + b == a;
    } else {
      var x :| x in b;
      SumRemove(f, b, x);
      SumRemove(f, a + b, x);
      assert a + b - {x} == a + (b - {x});
      SumUnion(f, a, b - {x});
    }
  }

  lemma SumSplit(f: map<Tx, nat>, a: set<Tx>, b: set<Tx>)
    ensures Sum(f, a) == Sum(f, a - b) + Sum(f, a * b)
  {
    SumUnion(f, a - b, a * b);
    assert (a - b) + (a * b) == a;
  }

  lemma {:induction false} SumScaled(f: map<Tx, nat>, g: map<Tx, nat>, s: set<Tx>, k: nat)
    requires forall x :: x in s ==> At(f, x) <= k * At(g, x)
    ensures Sum(f, s) <= k * Sum(g, s)
    decreases |s|
  {
    if s != {} {
      var x :| x in s;
      SumRemove(f, s, x);
      SumRemove(g, s, x);
      SumScaled(f, g, s - {x}, k);
      Distribute(k, At(g, x), Sum(g, s - {x}));
    }
  }

  lemma Distribute(k: nat, a: nat, b: nat)
    ensures k * (a + b) == k * a + k * b
  {
  }

  lemma {:induction false} SumPositive(f: map<Tx, nat>, s: set<Tx>, x: Tx)
    requires x in s
    ensures Sum(f, s) >= At(f, x)
  {
    SumRemove(f, s, x);
  }

  function Sizes(pool: Pool): map<Tx, nat> { map t | t in pool :: pool[t].size }
  function Weights(pool: Pool): map<Tx, nat> { map t | t in pool :: pool[t].weight }
  function SigOps(pool: Pool): map<Tx, nat> { map t | t in pool :: pool[t].sigOps }
  function SerSizes(pool: Pool): map<Tx, nat> { map t | t in pool :: pool[t].serSize }

  /** The weight of a set is at most four times its size. */
  lemma WeightBound(pool: Pool, s: set<Tx>)
    requires ValidPool(pool) && s <= pool.Keys
    ensures Sum(Weights(pool), s) <= WITNESS_SCALE_FACTOR * Sum(Sizes(pool), s)
  {
    SumScaled(Weights(pool), Sizes(pool), s, WITNESS_SCALE_FACTOR);
  }
}
