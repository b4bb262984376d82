/**
 The block assembler: transactions chosen by priority first, then by packages of a
 transaction with its unselected ancestors, using sums that are corrected as ancestors get
 into the block. Which package comes next depends on fees and is left open.
 */
module Miner {
  import opened Basics
  import opened Mempool

  const MAX_BLOCK_SIGOPS_COST := 80000
  const MAX_CONSECUTIVE_FAILURES := 1000

  // ---------- blocks ----------

  function Elements(s: seq<Tx>): set<Tx> { set i | 0 <= i < |s| :: s[i] }

  /** No transaction twice, and every ancestor before what depends on it. */
  ghost predicate BlockOk(pool: Pool, block: seq<Tx>) {
    && (forall i, j :: 0 <= i < j < |block| ==> block[i] != block[j])
    && (forall i :: 0 <= i < |block| ==> block[i] in pool && pool[block[i]].ancestors <= Elements(block[..i]))
  }

  ghost predicate Closed(pool: Pool, s: set<Tx>) {
    s <= pool.Keys && forall t :: t in s ==> pool[t].ancestors <= s
  }

  lemma ElementsAppend(s: seq<Tx>, t: Tx)
    ensures Elements(s + [t]) == Elements(s) + {t}
  {
    assert forall i :: 0 <= i < |s| ==> (s + [t])[i] == s[i];
    assert (s + [t])[|s|] == t;
  }

  lemma BlockAppend(pool: Pool, block: seq<Tx>, t: Tx)
    requires BlockOk(pool, block) && t in pool && t !in Elements(block) && pool[t].ancestors <= Elements(block)
    ensures BlockOk(pool, block + [t])
  {
    var b := block + [t];
    forall i | 0 <= i < |b|
      ensures b[i] in pool && pool[b[i]].ancestors <= Elements(b[..i])
    {
      if i < |block| {
        assert b[..i] == block[..i];
      } else {
        assert b[..i] == block;
      }
    }
    assert forall i :: 0 <= i < |block| ==> block[i] in Elements(block);
  }

  lemma BlockClosed(pool: Pool, block: seq<Tx>)
    requires BlockOk(pool, block)
    ensures Closed(pool, Elements(block))
  {
    forall t | t in Elements(block)
      ensures t in pool && pool[t].ancestors <= Elements(block)
    {
      var i :| 0 <= i < |block| && block[i] == t;
      assert Elements(block[..i]) <= Elements(block) by {
        assert forall k :: 0 <= k < i ==> block[..i][k] == block[k];
      }
    }
  }

  /** Every parent stands before its child. */
  lemma ParentsFirst(pool: Pool, block: seq<Tx>, j: nat, p: Tx) returns (i: nat)
    requires ValidPool(pool) && BlockOk(pool, block) && j < |block| && p in pool[block[j]].parents
    ensures i < j && block[i] == p
  {
    assert p in Elements(block[..j]);
    i :| 0 <= i < j && block[..j][i] == p;
  }

  // ---------- packages ----------

  /** The sums kept for a transaction some of whose ancestors are in the block. */
  datatype Mod = Mod(size: int, sigOps: int)

  function Full(pool: Pool, t: Tx): Mod
    requires t in pool
  {
    Mod(pool[t].sizeWithAncestors, pool[t].sigOpsWithAncestors)
  }

  type Mods = map<Tx, Mod>

  /** The sums are never below what the transaction and its unselected ancestors really need. */
  ghost predicate Covers(pool: Pool, m: Mod, t: Tx, inBlock: set<Tx>)
    requires t in pool
  {
    && m.size >= Sum(Sizes(pool), Family(pool, t) - inBlock)
    && m.sigOps >= Sum(SigOps(pool), Family(pool, t) - inBlock)
  }

  ghost predicate ModsOk(pool: Pool, mods: Mods, inBlock: set<Tx>) {
    forall t :: t in mods ==> t in pool && t !in inBlock && Covers(pool, mods[t], t, inBlock)
  }

  /** The sums kept for an entry are never above those of the whole family. */
  ghost predicate ModsBelow(pool: Pool, mods: Mods) {
    forall t :: t in mods ==> t in pool && mods[t].size <= Full(pool, t).size && mods[t].sigOps <= Full(pool, t).sigOps
  }

  lemma UpdatedBelow(pool: Pool, mods: Mods, added: set<Tx>, mods': Mods)
    requires ModsBelow(pool, mods) && Updated(pool, mods, added, added, mods')
    ensures ModsBelow(pool, mods') && mods.Keys <= mods'.Keys
  {
    hide Sum;
    forall t | t in mods'
      ensures t in pool && mods'[t].size <= Full(pool, t).size && mods'[t].sigOps <= Full(pool, t).sigOps
    {
      assert Find(mods', t) == After(pool, mods, added, added, t);
    }
    forall t | t in mods
      ensures t in mods'
    {
      assert Find(mods', t) == After(pool, mods, added, added, t);
    }
  }

  lemma FullCovers(pool: Pool, t: Tx, inBlock: set<Tx>)
    requires ValidPool(pool) && t in pool
    ensures Covers(pool, Full(pool, t), t, inBlock)
  {
    SumSplit(Sizes(pool), Family(pool, t), inBlock);
    SumSplit(SigOps(pool), Family(pool, t), inBlock);
  }

  /** The sums that an entry starts from when ancestors are about to be taken off. */
  function Base(pool: Pool, mods: Mods, t: Tx): Mod
    requires t in pool
  {
    if t in mods then mods[t] else Full(pool, t)
  }

  ghost function Reduced(pool: Pool, m: Mod, gone: set<Tx>): Mod {
    Mod(m.size - Sum(Sizes(pool), gone), m.sigOps - Sum(SigOps(pool), gone))
  }

  datatype MaybeMod = Absent | Present(m: Mod)

  function Find(mods: Mods, t: Tx): MaybeMod { if t in mods then Present(mods[t]) else Absent }

  /** What is kept for `t` after the transactions in `done` were taken off everything that depends on them. */
  ghost function After(pool: Pool, mods: Mods, added: set<Tx>, done: set<Tx>, t: Tx): MaybeMod {
    if t in pool && t !in added && pool[t].ancestors * done != {}
    then Present(Reduced(pool, Base(pool, mods, t), pool[t].ancestors * done)) else Find(mods, t)
  }

  ghost predicate Updated(pool: Pool, mods: Mods, added: set<Tx>, done: set<Tx>, mods': Mods) {
    forall t :: Find(mods', t) == After(pool, mods, added, done, t)
  }

  /** Taking the newly added ancestors off keeps the sums sufficient, and leaves room for the transaction itself. */
  lemma ReducedCovers(pool: Pool, m: Mod, t: Tx, before: set<Tx>, added: set<Tx>)
    requires t in pool && Covers(pool, m, t, before) && t !in added && t !in before && before !! added
    ensures Covers(pool, Reduced(pool, m, pool[t].ancestors * added), t, before + added)
    ensures Reduced(pool, m, pool[t].ancestors * added).size >= At(Sizes(pool), t)
    ensures Reduced(pool, m, pool[t].ancestors * added).sigOps >= At(SigOps(pool), t)
  {
    var need, gone := Family(pool, t) - before, pool[t].ancestors * added;
    assert need - gone == Family(pool, t) - (before + added);
    assert need * gone == gone;
    SumSplit(Sizes(pool), need, gone);
    SumSplit(SigOps(pool), need, gone);
    SumPositive(Sizes(pool), need - gone, t);
    SumPositive(SigOps(pool), need - gone, t);
  }

  /** The sums are what the transaction and its unselected ancestors need, no more and no less. */
  ghost predicate Exact(pool: Pool, m: Mod, t: Tx, inBlock: set<Tx>)
    requires t in pool
  {
    m == Mod(Sum(Sizes(pool), Family(pool, t) - inBlock), Sum(SigOps(pool), Family(pool, t) - inBlock))
  }

  /** Exact sums stay exact when the newly added ancestors are taken off. */
  lemma ReducedExact(pool: Pool, m: Mod, t: Tx, before: set<Tx>, added: set<Tx>)
    requires t in pool && Exact(pool, m, t, before) && t !in added && before !! added
    ensures Exact(pool, Reduced(pool, m, pool[t].ancestors * added), t, before + added)
  {
    var need, gone := Family(pool, t) - before, pool[t].ancestors * added;
    assert need - gone == Family(pool, t) - (before + added);
    assert need * gone == gone;
    SumSplit(Sizes(pool), need, gone);
    SumSplit(SigOps(pool), need, gone);
  }

  /** Entries with exact sums, and no entry for a transaction without ancestors in the block. */
  ghost predicate ExactMods(pool: Pool, mods: Mods, inBlock: set<Tx>) {
    forall t :: t in pool && t !in inBlock ==>
      if t in mods then Exact(pool, mods[t], t, inBlock) else pool[t].ancestors * inBlock == {}
  }

  /** The update keeps all sums exact and makes an entry for each descendant of what was added. */
  lemma UpdatedExact(pool: Pool, mods: Mods, before: set<Tx>, added: set<Tx>, mods': Mods)
    requires ValidPool(pool) && ExactMods(pool, mods, before) && before !! added && Updated(pool, mods, added, added, mods')
    ensures ExactMods(pool, mods', before + added)
  {
    hide Sum, Exact, ValidPool, Reduced;
    forall t | t in pool && t !in before + added
      ensures if t in mods' then Exact(pool, mods'[t], t, before + added) else pool[t].ancestors * (before + added) == {}
    {
      assert Find(mods', t) == After(pool, mods, added, added, t);
      if t in mods' {
        if t !in mods {
          FullExact(pool, t, before);
        }
        ReducedExact(pool, Base(pool, mods, t), t, before, added);
        if pool[t].ancestors * added == {} {
          ReducedNone(pool, mods[t]);
        }
      }
    }
  }

  lemma FullExact(pool: Pool, t: Tx, inBlock: set<Tx>)
    requires ValidPool(pool) && t in pool && t !in inBlock && pool[t].ancestors * inBlock == {}
    ensures Exact(pool, Full(pool, t), t, inBlock)
  {
    assert Family(pool, t) - inBlock == Family(pool, t);
  }

  lemma UpdatedOk(pool: Pool, mods: Mods, before: set<Tx>, added: set<Tx>, mods': Mods)
    requires ValidPool(pool) && ModsOk(pool, mods, before) && Closed(pool, before) && before !! added
    requires mods.Keys !! added && Updated(pool, mods, added, added, mods')
    ensures ModsOk(pool, mods', before + added)
  {
    hide Sum, Covers;
    forall t | t in mods'
      ensures t in pool && t !in before + added && Covers(pool, mods'[t], t, before + added)
    {
      assert Find(mods', t) == After(pool, mods, added, added, t);
      if t !in mods {
        var a :| a in pool[t].ancestors * added;
        assert t in before ==> a in before;
        FullCovers(pool, t, before);
      }
      ReducedCovers(pool, Base(pool, mods, t), t, before, added);
      if pool[t].ancestors * added == {} {
        ReducedNone(pool, mods[t]);
      }
    }
  }

  lemma ReducedStep(pool: Pool, m: Mod, gone: set<Tx>, it: Tx)
    requires it in pool && it !in gone
    ensures Reduced(pool, m, gone + {it}) ==
            Mod(Reduced(pool, m, gone).size - pool[it].size, Reduced(pool, m, gone).sigOps - pool[it].sigOps)
  {
    SumRemove(Sizes(pool), gone + {it}, it);
    SumRemove(SigOps(pool), gone + {it}, it);
    assert gone + {it} - {it} == gone;
  }

  /** Taking `it` off an entry that depends on it: the sums hold its size, and what is left is as it should be. */
  lemma AfterStep(pool: Pool, mods: Mods, t: Tx, it: Tx, before: set<Tx>, added: set<Tx>, done: set<Tx>)
    requires ValidPool(pool) && ModsOk(pool, mods, before) && Closed(pool, before) && before !! added
    requires t in pool && t !in added && it in added && it in pool && it in pool[t].ancestors && it !in done && done <= added
    ensures var cur := After(pool, mods, added, done, t);
            var m := if cur.Present? then cur.m else Full(pool, t);
            && m.size >= pool[it].size && m.sigOps >= pool[it].sigOps
            && After(pool, mods, added, done + {it}, t) == Present(Mod(m.size - pool[it].size, m.sigOps - pool[it].sigOps))
  {
    hide Sum, Reduced;
    var gone := pool[t].ancestors * done;
    NoUnderflow(pool, mods, t, it, before, added, done);
    ReducedStep(pool, Base(pool, mods, t), gone, it);
    ReducedNone(pool, Base(pool, mods, t));
    assert gone + {it} == pool[t].ancestors * (done + {it});
  }

  lemma AfterOther(pool: Pool, mods: Mods, t: Tx, it: Tx, added: set<Tx>, done: set<Tx>)
    requires t in added || t !in Descendants(pool, it)
    ensures After(pool, mods, added, done + {it}, t) == After(pool, mods, added, done, t)
  {
    if t in pool && t !in added {
      assert pool[t].ancestors * (done + {it}) == pool[t].ancestors * done;
    }
  }

  /** Take one added transaction off everything that depends on it. */
  method UpdateDescendants(pool: Pool, it: Tx, added: set<Tx>, ghost done: set<Tx>, ghost before: set<Tx>,
                           ghost mods0: Mods, mods: Mods) returns (mods': Mods)
    requires ValidPool(pool) && it in added && it in pool && it !in done && done <= added <= pool.Keys
    requires ModsOk(pool, mods0, before) && Closed(pool, before) && before !! added
    requires Updated(pool, mods0, added, done, mods)
    ensures Updated(pool, mods0, added, done + {it}, mods')
  {
    hide After, ValidPool, ModsOk, Closed;
    mods' := mods;
    var todo := Descendants(pool, it);
    while todo != {}
      invariant todo <= Descendants(pool, it)
      invariant forall t :: Find(mods', t) ==
                  After(pool, mods0, added, if t in Descendants(pool, it) && t !in todo then done + {it} else done, t)
    {
      var desc: Tx :| desc in todo;
      if desc in added {
        AfterOther(pool, mods0, desc, it, added, done);
      } else {
        AfterStep(pool, mods0, desc, it, before, added, done);
        assert Find(mods', desc) == After(pool, mods0, added, done, desc);
        var m := if desc in mods' then mods'[desc] else Full(pool, desc);
        assert m.size >= pool[it].size && m.sigOps >= pool[it].sigOps;
        mods' := mods'[desc := Mod(m.size - pool[it].size, m.sigOps - pool[it].sigOps)];
      }
      todo := todo - {desc};
    }
    forall t: Tx
      ensures Find(mods', t) == After(pool, mods0, added, done + {it}, t)
    {
      if t !in Descendants(pool, it) {
        AfterOther(pool, mods0, t, it, added, done);
      }
    }
  }

  lemma ReducedNone(pool: Pool, m: Mod)
    ensures Reduced(pool, m, {}) == m
  {
  }

  /** Before `it` is taken off, the sums still hold its size and more. */
  lemma NoUnderflow(pool: Pool, mods: Mods, t: Tx, it: Tx, before: set<Tx>, added: set<Tx>, done: set<Tx>)
    requires ValidPool(pool) && ModsOk(pool, mods, before) && Closed(pool, before) && before !! added
    requires t in pool && t !in added && it in added && it in pool && it in pool[t].ancestors && it !in done && done <= added
    ensures var r := Reduced(pool, Base(pool, mods, t), pool[t].ancestors * done);
            r.size >= pool[it].size && r.sigOps >= pool[it].sigOps
  {
    hide Sum;
    assert t !in before;
    FullCovers(pool, t, before);
    ReducedCovers(pool, Base(pool, mods, t), t, before, done);
    var left := Family(pool, t) - (before + done);
    SumPositive(Sizes(pool), left, it);
    SumPositive(SigOps(pool), left, it);
  }

  /** Take the newly added transactions off everything that depends on them. */
  method UpdatePackagesForAdded(pool: Pool, added: set<Tx>, mods: Mods, ghost before: set<Tx>) returns (mods': Mods)
    requires ValidPool(pool) && added <= pool.Keys && mods.Keys !! added
    requires ModsOk(pool, mods, before) && Closed(pool, before) && before !! added
    ensures Updated(pool, mods, added, added, mods') && ModsOk(pool, mods', before + added)
  {
    hide Sum, Reduced, Covers;
    mods' := mods;
    var todo := added;
    assert added - todo == {};
    while todo != {}
      invariant todo <= added && Updated(pool, mods, added, added - todo, mods')
    {
      var it: Tx :| it in todo;
      mods' := UpdateDescendants(pool, it, added, added - todo, before, mods, mods');
      assert added - todo + {it} == added - (todo - {it});
      todo := todo - {it};
    }
    assert added - {} == added;
    UpdatedOk(pool, mods, before, added, mods');
  }

  // ---------- the assembler ----------

  const MAX_BLOCK_WEIGHT := 4000000
  const MAX_BLOCK_SERIALIZED_SIZE := 4000000

  function Clamp(lo: int, hi: int, x: int): int {
    var y := if x < hi then x else hi;
    if y < lo then lo else y
  }

  /** A list of exactly the transactions of `s`, with ancestor counts that never go down. */
  ghost predicate SortedFor(pool: Pool, s: set<Tx>, l: seq<Tx>) {
    && s <= pool.Keys && Elements(l) == s
    && (forall i, j :: 0 <= i < j < |l| ==> l[i] != l[j])
    && (forall i :: 0 <= i < |l| ==> l[i] in pool)
    && (forall i, j :: 0 <= i < j < |l| ==> CountWithAncestors(pool, l[i]) <= CountWithAncestors(pool, l[j]))
  }

  /** In such a list the ancestors of a transaction stand before it. */
  lemma SortedAncestors(pool: Pool, s: set<Tx>, l: seq<Tx>, k: nat)
    requires ValidPool(pool) && SortedFor(pool, s, l) && k < |l|
    ensures pool[l[k]].ancestors * s <= Elements(l[..k])
  {
    forall a | a in pool[l[k]].ancestors * s
      ensures a in Elements(l[..k])
    {
      CountGrows(pool, l[k], a);
      var i :| 0 <= i < |l| && l[i] == a;
      assert i < k;
      assert l[..k][i] == a;
    }
  }

  method SortForBlock(pool: Pool, package: set<Tx>) returns (sorted: seq<Tx>)
    requires package <= pool.Keys
    ensures SortedFor(pool, package, sorted)
  {
    hide CountWithAncestors;
    sorted := [];
    var todo := package;
    while todo != {}
      invariant todo <= package && Elements(sorted) == package - todo
      invariant forall i, j :: 0 <= i < j < |sorted| ==> sorted[i] != sorted[j]
      invariant forall i :: 0 <= i < |sorted| ==> sorted[i] in pool && sorted[i] in package - todo
      invariant forall i, j :: 0 <= i < j < |sorted| ==> CountWithAncestors(pool, sorted[i]) <= CountWithAncestors(pool, sorted[j])
      invariant forall i, t :: 0 <= i < |sorted| && t in todo ==> CountWithAncestors(pool, sorted[i]) <= CountWithAncestors(pool, t)
    {
      var next := Least(pool, todo);
      ElementsAppend(sorted, next);
      sorted := sorted + [next];
      todo := todo - {next};
    }
  }

  method Least(pool: Pool, s: set<Tx>) returns (least: Tx)
    requires s != {} && s <= pool.Keys
    ensures least in s && forall t :: t in s ==> CountWithAncestors(pool, least) <= CountWithAncestors(pool, t)
  {
    hide CountWithAncestors;
    least :| least in s;
    var rest := s - {least};
    while rest != {}
      invariant rest <= s && least in s
      invariant forall t :: t in s && t !in rest ==> CountWithAncestors(pool, least) <= CountWithAncestors(pool, t)
    {
      var t: Tx :| t in rest;
      if CountWithAncestors(pool, t) < CountWithAncestors(pool, least) {
        least := t;
      }
      rest := rest - {t};
    }
  }

  /** A transaction with those of its ancestors that are not in the block. */
  function Package(pool: Pool, t: Tx, inBlock: set<Tx>): set<Tx>
    requires t in pool
  {
    Family(pool, t) - inBlock
  }

  function Without(mods: Mods, t: Tx): Mods { mods - {t} }

  ghost function Open(pool: Pool, inBlock: set<Tx>): nat { |pool.Keys - inBlock| }

  /** No entry is dropped but those that got into the block and `t`. */
  ghost predicate OnlyDrops(mods: Mods, mods': Mods, inBlock: set<Tx>, t: Tx) {
    mods.Keys <= mods'.Keys + inBlock + {t}
  }

  ghost predicate PassesOver(rest: seq<Tx>, rest': seq<Tx>, t: Tx) { Elements(rest) <= Elements(rest') + {t} }

  ghost function Pending(order: seq<Tx>, mi: nat, mods: Mods): nat
    requires mi <= |order|
  {
    |order| - mi + |mods|
  }

  /** Why priority selection ended. */
  datatype PriorityEnd = Disabled | SizeReached | BlockFinished | HeapEmpty

  /** `t` cannot be added next: a parent is missing, it does not fit, or it must not be mined. */
  ghost predicate Stuck(pool: Pool, r: Limits, inBlock: set<Tx>, t: Tx)
    requires t in pool
  {
    !(pool[t].parents <= inBlock) || !Fits(pool, r, {t}) || !Allowed(pool, r.segwit, {t})
  }

  /**
   `t` found the block full: by weight with less than 400 left, by size with less than 100 left,
   by sigops with less than 8 left, or by weight or size after more than fifty near misses.
   */
  ghost predicate Packed(pool: Pool, r: Limits, t: Tx, few: nat) {
    && t in pool
    && if pool[t].weight >= r.weight then r.weight < 400 || few > 50
       else if r.sized && pool[t].serSize >= r.size then r.size < 100 || few > 50
       else pool[t].sigOps >= r.sigOps && r.sigOps < 8
  }

  /** Less than 4000 of the weight or 1000 of the size is left. */
  predicate Tight(r: Limits) { r.weight < 4000 || (r.sized && r.size < 1000) }

  /** Near misses: different transactions that are left out and do not fit a block that is nearly full. */
  ghost predicate NearMisses(pool: Pool, r: Limits, inBlock: set<Tx>, near: set<Tx>) {
    (near != {} ==> Tight(r)) && forall t :: t in near ==> t in pool && t !in inBlock && !Fits(pool, r, {t})
  }

  /** Some transaction that is left out found the block full. */
  ghost predicate Finished(pool: Pool, r: Limits, inBlock: set<Tx>) {
    exists t, near: set<Tx> :: t !in inBlock && Packed(pool, r, t, |near|) && NearMisses(pool, r, inBlock, near)
  }

  ghost predicate Near(pool: Pool, r: Limits, inBlock: set<Tx>, heap: multiset<Tx>, wait: set<Tx>, near: set<Tx>) {
    NearMisses(pool, r, inBlock, near) && forall t :: t in near ==> t !in heap && t !in wait
  }

  lemma NearStart(pool: Pool, r: Limits, inBlock: set<Tx>, heap: multiset<Tx>, wait: set<Tx>)
    ensures Near(pool, r, inBlock, heap, wait, {})
  {
  }

  lemma NearPop(pool: Pool, r: Limits, inBlock: set<Tx>, heap: multiset<Tx>, wait: set<Tx>, near: set<Tx>, t: Tx)
    requires Near(pool, r, inBlock, heap, wait, near) && t in heap
    ensures Near(pool, r, inBlock, heap - multiset{t}, wait, near) && Near(pool, r, inBlock, heap - multiset{t}, wait + {t}, near)
  {
    hide NearMisses;
  }

  lemma NearMore(pool: Pool, r: Limits, inBlock: set<Tx>, heap: multiset<Tx>, wait: set<Tx>, near: set<Tx>, t: Tx)
    requires Queued(pool, inBlock, heap, wait) && Near(pool, r, inBlock, heap, wait, near) && t in heap && t in pool
    requires !Fits(pool, r, {t}) && Tight(r)
    ensures Near(pool, r, inBlock, heap - multiset{t}, wait, near + {t}) && |near + {t}| == |near| + 1
  {
    hide Fits, Tight;
    assert heap[t] == 1;
  }

  lemma NearAdd(pool: Pool, r: Limits, inBlock: set<Tx>, heap: multiset<Tx>, wait: set<Tx>, near: set<Tx>, t: Tx, heap': multiset<Tx>, wait': set<Tx>)
    requires Near(pool, r, inBlock, heap, wait, near) && t in heap && t in pool
    requires wait' == wait - Children(pool, t) && heap' == heap - multiset{t} + multiset(wait * Children(pool, t))
    ensures Near(pool, Used(pool, r, t), inBlock + {t}, heap', wait', near)
  {
    hide Sum;
  }

  lemma FinishedBy(pool: Pool, r: Limits, inBlock: set<Tx>, heap: multiset<Tx>, wait: set<Tx>, near: set<Tx>, t: Tx)
    requires Near(pool, r, inBlock, heap - multiset{t}, wait, near) && t !in inBlock && Packed(pool, r, t, |near|)
    ensures Finished(pool, r, inBlock)
  {
    hide NearMisses, Packed;
  }

  ghost predicate AllStuck(pool: Pool, r: Limits, inBlock: set<Tx>) {
    forall t :: t in pool && t !in inBlock ==> Stuck(pool, r, inBlock, t)
  }

  /** Why package selection ended. */
  datatype End = Exhausted | FeesTooLow | GaveUp

  datatype Verdict = TooBig | NotFinal | Selected

  /** What is left in the block. */
  datatype Limits = Limits(weight: int, sigOps: int, sized: bool, size: int, segwit: bool)

  /** Whether a set of transactions fits, by the true sums. */
  ghost predicate Fits(pool: Pool, r: Limits, s: set<Tx>) {
    && Sum(Weights(pool), s) < r.weight
    && Sum(SigOps(pool), s) < r.sigOps
    && (r.sized ==> Sum(SerSizes(pool), s) < r.size)
  }

  function Used(pool: Pool, r: Limits, t: Tx): Limits
    requires t in pool
  {
    Limits(r.weight - pool[t].weight, r.sigOps - pool[t].sigOps, r.sized, if r.sized then r.size - pool[t].serSize else r.size,
           r.segwit)
  }

  lemma FitsStep(pool: Pool, r: Limits, s: set<Tx>, t: Tx)
    requires t in s && t in pool && Fits(pool, r, s)
    ensures Fits(pool, r, {t}) && Fits(pool, Used(pool, r, t), s - {t}) && Tighter(r, Used(pool, r, t))
  {
    hide Sum;
    SplitSums(pool, s, t);
  }

  /** Less room than before, under the same rules. */
  predicate Tighter(r: Limits, r': Limits) {
    r'.weight <= r.weight && r'.sigOps <= r.sigOps && r'.size <= r.size && r'.sized == r.sized && r'.segwit == r.segwit
  }

  /** Final, and without a witness unless witnesses may be included. */
  ghost predicate Allowed(pool: Pool, segwit: bool, s: set<Tx>) {
    forall t :: t in s ==> t in pool && pool[t].isFinal && (segwit || !pool[t].hasWitness)
  }

  /** No room for `t` with all its ancestors by the size estimate, or some of them must not be mined. */
  ghost predicate Hopeless(pool: Pool, r: Limits, t: Tx)
    requires t in pool
  {
    || WITNESS_SCALE_FACTOR * pool[t].sizeWithAncestors >= r.weight
    || pool[t].sigOpsWithAncestors >= r.sigOps
    || !Allowed(pool, r.segwit, Family(pool, t))
    || (r.sized && Sum(SerSizes(pool), Family(pool, t)) >= r.size)
  }

  /** No room for `t` with all its ancestors, by the size estimate or by sigops. */
  predicate NoRoomFor(pool: Pool, r: Limits, t: Tx) {
    t in pool && (WITNESS_SCALE_FACTOR * pool[t].sizeWithAncestors >= r.weight || pool[t].sigOpsWithAncestors >= r.sigOps)
  }

  predicate NoRepeats(order: seq<Tx>) { forall i, j :: 0 <= i < j < |order| ==> order[i] != order[j] }

  /** The block is within 4000 of its weight, and more than a thousand different transactions found no room. */
  ghost predicate Crammed(pool: Pool, r: Limits, inBlock: set<Tx>) {
    r.weight < 4000 && exists misses: set<Tx> :: |misses| > MAX_CONSECUTIVE_FAILURES && Missed(pool, r, inBlock, misses)
  }

  ghost predicate Missed(pool: Pool, r: Limits, inBlock: set<Tx>, misses: set<Tx>) {
    forall t :: t in misses ==> t !in inBlock && NoRoomFor(pool, r, t)
  }

  /** Some transaction that is left out has too low fees, for sums that cover what it needs. */
  ghost predicate Cheap(pool: Pool, feeTooLow: (Tx, Mod) -> bool, inBlock: set<Tx>) {
    exists t, m: Mod :: t in pool && t !in inBlock && Covers(pool, m, t, inBlock) && feeTooLow(t, m)
  }

  /** Whatever joined the block joined with a transaction, itself or an ancestor of it, whose fees were not too low. */
  ghost predicate Paid(pool: Pool, feeTooLow: (Tx, Mod) -> bool, before: set<Tx>, inBlock: set<Tx>) {
    forall t :: t in inBlock && t !in before ==> exists u, m: Mod :: PaidBy(pool, feeTooLow, inBlock, t, u, m)
  }

  ghost predicate PaidBy(pool: Pool, feeTooLow: (Tx, Mod) -> bool, inBlock: set<Tx>, t: Tx, u: Tx, m: Mod) {
    && u in pool && u in inBlock && t in Family(pool, u) && !feeTooLow(u, m)
    && m.size <= Full(pool, u).size && m.sigOps <= Full(pool, u).sigOps
  }

  /** The failures since the last success: different transactions, each passed for good as long as nothing succeeds. */
  ghost predicate Misses(pool: Pool, r: Limits, inBlock: set<Tx>, mods: Mods, failed: set<Tx>, order: seq<Tx>, mi: nat, misses: set<Tx>, n: nat)
    requires mi <= |order|
  {
    && Missed(pool, r, inBlock, misses) && misses !! mods.Keys && misses <= failed + Elements(order[..mi])
    && (NoRepeats(order) ==> |misses| == n)
  }

  lemma NoMisses(pool: Pool, r: Limits, inBlock: set<Tx>, mods: Mods, failed: set<Tx>, order: seq<Tx>, mi: nat)
    requires mi <= |order|
    ensures Misses(pool, r, inBlock, mods, failed, order, mi, {}, 0)
  {
  }

  lemma MissesPass(pool: Pool, r: Limits, inBlock: set<Tx>, mods: Mods, mods': Mods, failed: set<Tx>, failed': set<Tx>,
                   order: seq<Tx>, mi: nat, mi': nat, misses: set<Tx>, n: nat)
    requires mi <= mi' <= |order| && Misses(pool, r, inBlock, mods, failed, order, mi, misses, n)
    requires mods'.Keys <= mods.Keys && failed <= failed'
    ensures Misses(pool, r, inBlock, mods', failed', order, mi', misses, n)
  {
    hide NoRoomFor;
    forall t | t in Elements(order[..mi])
      ensures t in Elements(order[..mi'])
    {
      var i :| 0 <= i < mi && order[..mi][i] == t;
      assert order[..mi'][i] == t;
    }
  }

  /** One more failure is a different transaction. */
  lemma MissesGrow(pool: Pool, r: Limits, inBlock: set<Tx>, mods: Mods, failed: set<Tx>, failed': set<Tx>,
                   order: seq<Tx>, mi: nat, mi': nat, misses: set<Tx>, n: nat, iter: Tx, fUsingModified: bool)
    requires mi <= mi' <= |order| && Misses(pool, r, inBlock, mods, failed, order, mi, misses, n) && NoRoomFor(pool, r, iter)
    requires iter !in inBlock && failed <= failed'
    requires if fUsingModified then iter in mods && iter in failed' else mi < mi' && iter == order[mi] && iter !in failed
    ensures Misses(pool, r, inBlock, Without(mods, iter), failed', order, mi', misses + {iter}, n + 1)
  {
    hide NoRoomFor;
    MissesPass(pool, r, inBlock, mods, Without(mods, iter), failed, failed', order, mi, mi', misses, n);
    if !fUsingModified {
      assert order[..mi'][mi] == iter;
      NotBefore(order, mi);
    }
  }

  lemma NotBefore(order: seq<Tx>, mi: nat)
    requires mi < |order|
    ensures NoRepeats(order) ==> order[mi] !in Elements(order[..mi])
  {
  }

  lemma MissesGiveUp(pool: Pool, r: Limits, inBlock: set<Tx>, mods: Mods, failed: set<Tx>, order: seq<Tx>, mi: nat, misses: set<Tx>, n: nat)
    requires mi <= |order| && Misses(pool, r, inBlock, mods, failed, order, mi, misses, n)
    requires n > MAX_CONSECUTIVE_FAILURES && r.weight < 4000
    ensures NoRepeats(order) ==> Crammed(pool, r, inBlock)
  {
    hide NoRoomFor, Missed, NoRepeats;
  }

  lemma PaidNothing(pool: Pool, feeTooLow: (Tx, Mod) -> bool, before: set<Tx>)
    ensures Paid(pool, feeTooLow, before, before)
  {
  }

  lemma PaidMore(pool: Pool, feeTooLow: (Tx, Mod) -> bool, before: set<Tx>, inBlock: set<Tx>, inBlock': set<Tx>, u: Tx, m: Mod)
    requires Paid(pool, feeTooLow, before, inBlock) && inBlock <= inBlock' && u in pool && inBlock' <= inBlock + Family(pool, u)
    requires inBlock' == inBlock || (u in inBlock' && !feeTooLow(u, m))
    requires m.size <= Full(pool, u).size && m.sigOps <= Full(pool, u).sigOps
    ensures Paid(pool, feeTooLow, before, inBlock')
  {
    forall t | t in inBlock' && t !in before
      ensures exists v, k: Mod :: PaidBy(pool, feeTooLow, inBlock', t, v, k)
    {
      if t in inBlock {
        var v, k: Mod :| PaidBy(pool, feeTooLow, inBlock, t, v, k);
        assert PaidBy(pool, feeTooLow, inBlock', t, v, k);
      } else {
        assert PaidBy(pool, feeTooLow, inBlock', t, u, m);
      }
    }
  }

  lemma CheapOne(pool: Pool, feeTooLow: (Tx, Mod) -> bool, inBlock: set<Tx>, t: Tx, m: Mod)
    requires t in pool && t !in inBlock && Covers(pool, m, t, inBlock) && feeTooLow(t, m)
    ensures Cheap(pool, feeTooLow, inBlock)
  {
  }

  /** Every transaction is in the block, still to be considered, or hopeless. */
  ghost predicate Settled(pool: Pool, r: Limits, inBlock: set<Tx>, open: set<Tx>) {
    forall t :: t in pool ==> t in inBlock || t in open || Hopeless(pool, r, t)
  }

  lemma HopelessStays(pool: Pool, r: Limits, r': Limits, t: Tx)
    requires t in pool && Hopeless(pool, r, t) && Tighter(r, r')
    ensures Hopeless(pool, r', t)
  {
    hide Sum;
  }

  /**
   Where package selection stands: only the modified entries and the rest of the pool order are
   open, and a failed transaction is hopeless unless it got in as an ancestor of another.
   */
  ghost predicate Tracked(pool: Pool, r: Limits, inBlock: set<Tx>, open: set<Tx>, failed: set<Tx>, rest: set<Tx>) {
    && Settled(pool, r, inBlock, open + rest)
    && forall t :: t in failed ==> t in pool && (t in inBlock || Hopeless(pool, r, t))
  }

  lemma TrackStep(pool: Pool, r: Limits, r': Limits, inBlock: set<Tx>, inBlock': set<Tx>, mods: Mods, mods': Mods,
                  failed: set<Tx>, failed': set<Tx>, rest: seq<Tx>, rest': seq<Tx>, iter: Tx)
    requires Tracked(pool, r, inBlock, mods.Keys, failed, Elements(rest)) && Tighter(r, r') && inBlock <= inBlock'
    requires OnlyDrops(mods, mods', inBlock', iter) && PassesOver(rest, rest', iter) && failed' <= failed + {iter}
    requires iter in pool && (iter in inBlock' || Hopeless(pool, r', iter))
    ensures Tracked(pool, r', inBlock', mods'.Keys, failed', Elements(rest'))
  {
    hide Hopeless;
    forall t | t in pool && Hopeless(pool, r, t)
      ensures Hopeless(pool, r', t)
    {
      HopelessStays(pool, r, r', t);
    }
  }

  // ---------- what was judged by exact sums ----------

  /** What is left of `base` once the transactions of `s` are in. */
  ghost function RoomIn(pool: Pool, base: Limits, s: set<Tx>): Limits {
    Limits(base.weight - Sum(Weights(pool), s), base.sigOps - Sum(SigOps(pool), s), base.sized, base.size - Sum(SerSizes(pool), s), base.segwit)
  }

  /** No room for `t` with those of its ancestors that are not in the block, by exact sums, or some of them must not be mined. */
  ghost predicate Unfit(pool: Pool, r: Limits, inBlock: set<Tx>, t: Tx) {
    && t in pool
    && var rest := Package(pool, t, inBlock);
       || WITNESS_SCALE_FACTOR * Sum(Sizes(pool), rest) >= r.weight
       || Sum(SigOps(pool), rest) >= r.sigOps
       || !Allowed(pool, r.segwit, rest)
       || (r.sized && Sum(SerSizes(pool), rest) >= r.size)
  }

  ghost predicate UnfitIn(pool: Pool, base: Limits, s: set<Tx>, t: Tx) { Unfit(pool, RoomIn(pool, base, s), s, t) }

  /** `t` was unfit for a first part of the block, and an ancestor of it came later. */
  ghost predicate Stale(pool: Pool, base: Limits, block: seq<Tx>, t: Tx) {
    exists j :: 0 <= j <= |block| && StaleSince(pool, base, Elements(block[..j]), Elements(block), t)
  }

  ghost predicate StaleSince(pool: Pool, base: Limits, part: set<Tx>, whole: set<Tx>, t: Tx) {
    t in pool && UnfitIn(pool, base, part, t) && pool[t].ancestors * (whole - part) != {}
  }

  /** `t` is unfit now, or was so and has since been looked at with sums that count too much. */
  ghost predicate Known(pool: Pool, base: Limits, block: seq<Tx>, t: Tx) {
    UnfitIn(pool, base, Elements(block), t) || Stale(pool, base, block, t)
  }

  ghost predicate AllKnown(pool: Pool, base: Limits, block: seq<Tx>) {
    forall t :: t in pool && t !in Elements(block) ==> Known(pool, base, block, t)
  }

  /** Modified entries have exact sums unless they are stale; every other transaction is known, or untouched and still to come. */
  ghost predicate Judged(pool: Pool, base: Limits, block: seq<Tx>, mods: Mods, rest: set<Tx>) {
    forall t :: t in pool && t !in Elements(block) ==>
      if t in mods then Exact(pool, mods[t], t, Elements(block)) || Stale(pool, base, block, t)
      else Known(pool, base, block, t) || (pool[t].ancestors * Elements(block) == {} && t in rest)
  }

  ghost predicate JudgedFailed(pool: Pool, base: Limits, block: seq<Tx>, mods: Mods, failed: set<Tx>) {
    forall t :: t in failed && t in pool && t !in Elements(block) && t !in mods ==> Known(pool, base, block, t)
  }

  lemma ElementsPrefix(a: seq<Tx>, b: seq<Tx>)
    requires a <= b
    ensures Elements(a) <= Elements(b)
  {
    forall x | x in Elements(a)
      ensures x in Elements(b)
    {
      var i :| 0 <= i < |a| && a[i] == x;
      assert b[i] == x;
    }
  }

  lemma StaleStays(pool: Pool, base: Limits, block: seq<Tx>, block': seq<Tx>, t: Tx)
    requires block <= block' && Stale(pool, base, block, t)
    ensures Stale(pool, base, block', t)
  {
    hide UnfitIn, Elements;
    var j :| 0 <= j <= |block| && StaleSince(pool, base, Elements(block[..j]), Elements(block), t);
    assert block'[..j] == block[..j];
    ElementsPrefix(block, block');
    StaleMore(pool, base, Elements(block[..j]), Elements(block), Elements(block'), t);
  }

  lemma StaleMore(pool: Pool, base: Limits, part: set<Tx>, whole: set<Tx>, whole': set<Tx>, t: Tx)
    requires StaleSince(pool, base, part, whole, t) && whole <= whole'
    ensures StaleSince(pool, base, part, whole', t)
  {
    hide UnfitIn;
    var a :| a in pool[t].ancestors * (whole - part);
    assert a in pool[t].ancestors * (whole' - part);
  }

  lemma SumGrows(f: map<Tx, nat>, a: set<Tx>, b: set<Tx>)
    requires a <= b
    ensures Sum(f, a) <= Sum(f, b)
  {
    SumSplit(f, b, a);
    assert b * a == a;
  }

  /** What is unfit stays so while nothing of its family gets in. */
  lemma UnfitStays(pool: Pool, base: Limits, a: set<Tx>, b: set<Tx>, t: Tx)
    requires UnfitIn(pool, base, a, t) && a <= b && Family(pool, t) !! (b - a)
    ensures UnfitIn(pool, base, b, t)
  {
    hide Sum, Allowed;
    assert Package(pool, t, b) == Package(pool, t, a);
    SumGrows(Weights(pool), a, b);
    SumGrows(SigOps(pool), a, b);
    SumGrows(SerSizes(pool), a, b);
  }

  lemma KnownStays(pool: Pool, base: Limits, block: seq<Tx>, block': seq<Tx>, t: Tx)
    requires block <= block' && t in pool && Known(pool, base, block, t)
    requires Family(pool, t) !! (Elements(block') - Elements(block))
    ensures Known(pool, base, block', t)
  {
    hide UnfitIn, Elements, Stale;
    ElementsPrefix(block, block');
    if Stale(pool, base, block, t) {
      StaleStays(pool, base, block, block', t);
    } else {
      UnfitStays(pool, base, Elements(block), Elements(block'), t);
    }
  }

  lemma KnownTurnsStale(pool: Pool, base: Limits, block: seq<Tx>, block': seq<Tx>, t: Tx)
    requires block <= block' && t in pool && Known(pool, base, block, t)
    requires pool[t].ancestors * (Elements(block') - Elements(block)) != {}
    ensures Stale(pool, base, block', t)
  {
    hide UnfitIn, Elements;
    if Stale(pool, base, block, t) {
      StaleStays(pool, base, block, block', t);
    } else {
      assert block'[..|block|] == block;
      assert StaleSince(pool, base, Elements(block'[..|block|]), Elements(block'), t);
    }
  }

  lemma JudgeStart(pool: Pool, base: Limits, block: seq<Tx>, mods: Mods)
    requires ValidPool(pool) && Updated(pool, map[], Elements(block), Elements(block), mods)
    ensures Judged(pool, base, block, mods, pool.Keys) && JudgedFailed(pool, base, block, mods, {})
  {
    hide Updated, Exact, ValidPool, Known, Stale, Elements;
    ExactNothing(pool);
    assert {} + Elements(block) == Elements(block);
    UpdatedExact(pool, map[], {}, Elements(block), mods);
  }

  lemma ExactNothing(pool: Pool)
    ensures ExactMods(pool, map[], {})
  {
  }

  lemma JudgeSkip(pool: Pool, base: Limits, block: seq<Tx>, mods: Mods, failed: set<Tx>, order: seq<Tx>, mi: nat)
    requires mi < |order| && (order[mi] in mods || order[mi] in Elements(block) || order[mi] in failed)
    requires Judged(pool, base, block, mods, Elements(order[mi..])) && JudgedFailed(pool, base, block, mods, failed)
    ensures Judged(pool, base, block, mods, Elements(order[mi + 1..]))
  {
    hide Known, Stale, Exact, Elements;
    ElementsNext(order, mi);
  }

  /** A failure is by exact sums, or of a stale entry. */
  lemma JudgeFail(pool: Pool, base: Limits, block: seq<Tx>, mods: Mods, failed: set<Tx>, failed': set<Tx>, rest: set<Tx>, rest': set<Tx>, iter: Tx)
    requires Judged(pool, base, block, mods, rest) && JudgedFailed(pool, base, block, mods, failed)
    requires Known(pool, base, block, iter) && rest <= rest' + {iter} && failed' <= failed + {iter}
    ensures Judged(pool, base, block, Without(mods, iter), rest') && JudgedFailed(pool, base, block, Without(mods, iter), failed')
  {
    hide Known, Stale, Exact, Elements;
  }

  /** The judgement itself: too big by the sums that are kept, or not to be mined. */
  lemma Judge(pool: Pool, base: Limits, block: seq<Tx>, mods: Mods, rest: set<Tx>, iter: Tx, sums: Mod)
    requires ValidPool(pool) && iter in pool && iter !in Elements(block) && Judged(pool, base, block, mods, rest)
    requires sums == if iter in mods then mods[iter] else Full(pool, iter)
    requires var r := RoomIn(pool, base, Elements(block));
             WITNESS_SCALE_FACTOR * sums.size >= r.weight || sums.sigOps >= r.sigOps || UnfitIn(pool, base, Elements(block), iter)
    ensures Known(pool, base, block, iter)
  {
    hide Stale, Elements, ValidPool, Sum, Allowed;
    if iter !in mods && !Known(pool, base, block, iter) {
      FullExact(pool, iter, Elements(block));
    }
  }

  /** After a success the entries of all that depends on the package are updated, and stay exact or turn stale. */
  lemma JudgeSelect(pool: Pool, base: Limits, block: seq<Tx>, block': seq<Tx>, mods: Mods, mods': Mods, failed: set<Tx>,
                    rest: set<Tx>, rest': set<Tx>, iter: Tx, package: set<Tx>)
    requires ValidPool(pool) && Judged(pool, base, block, mods, rest) && JudgedFailed(pool, base, block, mods, failed)
    requires block <= block' && Elements(block') == Elements(block) + package && package !! Elements(block) && iter in package
    requires Updated(pool, mods - package, package, package, mods') && rest <= rest' + {iter}
    ensures Judged(pool, base, block', mods', rest') && JudgedFailed(pool, base, block', mods', failed)
  {
    hide Known, Stale, Exact, Elements, ValidPool, Updated, Reduced;
    var was, now := Elements(block), Elements(block');
    assert now - was == package;
    forall t | t in pool && t !in now
      ensures t in mods' ==> Exact(pool, mods'[t], t, now) || Stale(pool, base, block', t)
      ensures t !in mods' ==> t !in mods && pool[t].ancestors * package == {}
      ensures t !in mods' && Known(pool, base, block, t) ==> Known(pool, base, block', t)
    {
      JudgeOne(pool, base, block, block', mods, mods', rest, package, t);
    }
  }

  lemma JudgeOne(pool: Pool, base: Limits, block: seq<Tx>, block': seq<Tx>, mods: Mods, mods': Mods, rest: set<Tx>, package: set<Tx>, t: Tx)
    requires ValidPool(pool) && Judged(pool, base, block, mods, rest) && t in pool && t !in Elements(block')
    requires block <= block' && Elements(block') == Elements(block) + package && package !! Elements(block)
    requires Updated(pool, mods - package, package, package, mods')
    ensures t in mods' ==> Exact(pool, mods'[t], t, Elements(block')) || Stale(pool, base, block', t)
    ensures t !in mods' ==> t !in mods && pool[t].ancestors * package == {}
    ensures t !in mods' && Known(pool, base, block, t) ==> Known(pool, base, block', t)
  {
    hide Known, Stale, Exact, Elements, ValidPool, Reduced;
    var was, now := Elements(block), Elements(block');
    assert now - was == package;
    assert Find(mods', t) == After(pool, mods - package, package, package, t);
    assert t in mods <==> t in mods - package;
    if pool[t].ancestors * package == {} {
      if t in mods {
        if Stale(pool, base, block, t) {
          StaleStays(pool, base, block, block', t);
        } else {
          ExactStays(pool, mods[t], t, was, now);
        }
      } else if Known(pool, base, block, t) {
        assert forall x :: x in Family(pool, t) && x in package ==> x in pool[t].ancestors * package;
        KnownStays(pool, base, block, block', t);
      }
    } else if t in mods {
      if Stale(pool, base, block, t) {
        StaleStays(pool, base, block, block', t);
      } else {
        ReducedExact(pool, mods[t], t, was, package);
      }
    } else if Known(pool, base, block, t) {
      KnownTurnsStale(pool, base, block, block', t);
    } else {
      FullExact(pool, t, was);
      ReducedExact(pool, Full(pool, t), t, was, package);
    }
  }

  lemma ExactStays(pool: Pool, m: Mod, t: Tx, was: set<Tx>, now: set<Tx>)
    requires t in pool && Exact(pool, m, t, was) && was <= now && t !in now && pool[t].ancestors * (now - was) == {}
    ensures Exact(pool, m, t, now)
  {
    assert Family(pool, t) * (now - was) == pool[t].ancestors * (now - was);
    assert Family(pool, t) - now == Family(pool, t) - was - Family(pool, t) * (now - was);
    assert Family(pool, t) - was - {} == Family(pool, t) - was;
  }

  lemma JudgeEnd(pool: Pool, base: Limits, block: seq<Tx>, mods: Mods)
    requires Judged(pool, base, block, mods, {}) && mods.Keys == {}
    ensures AllKnown(pool, base, block)
  {
    hide Known, Stale, Exact, Elements;
  }

  class BlockAssembler {
    const pool: Pool
    const fIncludeWitness: bool
    const nBlockMaxWeight: int
    const nBlockMaxSize: int
    var fNeedSizeAccounting: bool
    var block: seq<Tx>
    var inBlock: set<Tx>
    var nBlockWeight: int
    var nBlockSize: int
    var nBlockSigOpsCost: int
    var lastFewTxs: int
    var blockFinished: bool

    /** The counters are exact; the size is counted while size accounting is on. */
    ghost predicate Counted()
      reads this
    {
      && nBlockWeight == 4000 + Sum(Weights(pool), inBlock)
      && nBlockSigOpsCost == 400 + Sum(SigOps(pool), inBlock)
      && (fNeedSizeAccounting ==> nBlockSize == 1000 + Sum(SerSizes(pool), inBlock))
    }

    ghost predicate WithinLimits()
      reads this
    {
      && (block != [] ==> nBlockWeight < nBlockMaxWeight && nBlockSigOpsCost < MAX_BLOCK_SIGOPS_COST)
      && (block != [] && fNeedSizeAccounting ==> nBlockSize < nBlockMaxSize)
    }

    ghost predicate Valid()
      reads this
    {
      && ValidPool(pool) && BlockOk(pool, block) && inBlock == Elements(block)
      && Counted() && WithinLimits() && Allowed(pool, fIncludeWitness, inBlock)
    }

    constructor (pool: Pool, maxWeight: int, maxSize: int, includeWitness: bool)
      requires ValidPool(pool)
      ensures Valid() && block == [] && nBlockSize == 1000
      ensures this.pool == pool && fIncludeWitness == includeWitness
      ensures nBlockMaxWeight == Clamp(4000, MAX_BLOCK_WEIGHT - 4000, maxWeight)
      ensures nBlockMaxSize == Clamp(1000, MAX_BLOCK_SERIALIZED_SIZE - 1000, maxSize)
      ensures fNeedSizeAccounting <==> nBlockMaxSize < MAX_BLOCK_SERIALIZED_SIZE - 1000
      ensures lastFewTxs == 0 && !blockFinished
    {
      this.pool, fIncludeWitness := pool, includeWitness;
      nBlockMaxWeight := Clamp(4000, MAX_BLOCK_WEIGHT - 4000, maxWeight);
      nBlockMaxSize := Clamp(1000, MAX_BLOCK_SERIALIZED_SIZE - 1000, maxSize);
      fNeedSizeAccounting := Clamp(1000, MAX_BLOCK_SERIALIZED_SIZE - 1000, maxSize) < MAX_BLOCK_SERIALIZED_SIZE - 1000;
      block, inBlock := [], {};
      nBlockSize, nBlockWeight, nBlockSigOpsCost := 1000, 4000, 400;
      lastFewTxs, blockFinished := 0, false;
    }

    function Room(): Limits
      reads this
    {
      Limits(nBlockMaxWeight - nBlockWeight, MAX_BLOCK_SIGOPS_COST - nBlockSigOpsCost,
             fNeedSizeAccounting, nBlockMaxSize - nBlockSize, fIncludeWitness)
    }

    /** What an empty block has room for. */
    function Base(): Limits
      reads this`fNeedSizeAccounting
    {
      Limits(nBlockMaxWeight - 4000, MAX_BLOCK_SIGOPS_COST - 400, fNeedSizeAccounting, nBlockMaxSize - 1000, fIncludeWitness)
    }

    method AddToBlock(t: Tx)
      requires Valid() && t in pool && t !in inBlock && pool[t].ancestors <= inBlock && Fits(pool, Room(), {t})
      requires Allowed(pool, fIncludeWitness, {t})
      modifies this`block, this`inBlock, this`nBlockWeight, this`nBlockSize, this`nBlockSigOpsCost
      ensures Valid() && block == old(block) + [t] && inBlock == old(inBlock) + {t}
      ensures Room() == Used(pool, old(Room()), t)
    {
      hide ValidPool, BlockOk, Sum, Elements;
      BlockAppend(pool, block, t);
      ElementsAppend(block, t);
      AddSums(pool, inBlock, t);
      block := block + [t];
      if fNeedSizeAccounting {
        nBlockSize := nBlockSize + pool[t].serSize;
      }
      nBlockWeight := nBlockWeight + pool[t].weight;
      nBlockSigOpsCost := nBlockSigOpsCost + pool[t].sigOps;
      inBlock := inBlock + {t};
    }

    /** Room for a package, judged by its size and sigop sums. */
    method TestPackage(packageSize: int, packageSigOpsCost: int) returns (ok: bool)
      ensures ok <==> && nBlockWeight + WITNESS_SCALE_FACTOR * packageSize < nBlockMaxWeight
                      && nBlockSigOpsCost + packageSigOpsCost < MAX_BLOCK_SIGOPS_COST
    {
      if nBlockWeight + WITNESS_SCALE_FACTOR * packageSize >= nBlockMaxWeight {
        return false;
      }
      if nBlockSigOpsCost + packageSigOpsCost >= MAX_BLOCK_SIGOPS_COST {
        return false;
      }
      return true;
    }

    /** All final, no witness that must not be included, and room by serialized size. */
    ghost predicate Minable(package: set<Tx>)
      reads this
    {
      && Allowed(pool, fIncludeWitness, package)
      && (fNeedSizeAccounting ==> nBlockSize + Sum(SerSizes(pool), package) < nBlockMaxSize)
    }

    /** Finality, witness and serialized size of every transaction of a package. */
    method TestPackageTransactions(package: set<Tx>) returns (ok: bool)
      requires package <= pool.Keys && package != {}
      ensures ok <==> Minable(package)
    {
      var nPotentialBlockSize := nBlockSize;
      var todo := package;
      SumSplit(SerSizes(pool), package, {});
      while todo != {}
        invariant todo <= package
        invariant Allowed(pool, fIncludeWitness, package - todo)
        invariant fNeedSizeAccounting ==>
                    && nPotentialBlockSize + Sum(SerSizes(pool), todo) == nBlockSize + Sum(SerSizes(pool), package)
                    && (todo != package ==> nPotentialBlockSize < nBlockMaxSize)
      {
        var it: Tx :| it in todo;
        SumRemove(SerSizes(pool), todo, it);
        if !pool[it].isFinal {
          return false;
        }
        if !fIncludeWitness && pool[it].hasWitness {
          return false;
        }
        if fNeedSizeAccounting {
          var nTxSize := pool[it].serSize;
          if nPotentialBlockSize + nTxSize >= nBlockMaxSize {
            return false;
          }
          nPotentialBlockSize := nPotentialBlockSize + nTxSize;
        }
        todo := todo - {it};
      }
      return true;
    }

    /** Add a package that fits, ancestors first. */
    method AddPackage(package: set<Tx>, mods: Mods) returns (mods': Mods)
      requires Valid() && package <= pool.Keys && package !! inBlock && Fits(pool, Room(), package)
      requires Allowed(pool, fIncludeWitness, package)
      requires forall t :: t in package ==> pool[t].ancestors <= inBlock + package
      modifies this`block, this`inBlock, this`nBlockWeight, this`nBlockSize, this`nBlockSigOpsCost
      ensures Valid() && inBlock == old(inBlock) + package && old(block) <= block
      ensures Tighter(old(Room()), Room())
      ensures mods' == mods - package
    {
      hide *;
      KnownValid();
      var sorted := SortForBlock(pool, package);
      mods' := mods;
      SortedStart(package, sorted, mods, inBlock);
      for k := 0 to |sorted|
        invariant Valid() && inBlock == With(old(inBlock), sorted[..k]) && old(block) <= block
        invariant Fits(pool, Room(), Left(package, sorted[..k])) && mods' == Dropped(mods, sorted[..k])
        invariant Tighter(old(Room()), Room())
      {
        var entry := sorted[k];
        SortedStep(pool, package, sorted, k, old(inBlock));
        TakeStep(package, sorted, k, old(inBlock), mods);
        FitsStep(pool, Room(), Left(package, sorted[..k]), entry);
        TighterTrans(old(Room()), Room(), Used(pool, Room(), entry));
        AllowedOne(pool, fIncludeWitness, package, entry);
        AddToBlock(entry);
        mods' := Without(mods', entry);
      }
      SortedEnd(pool, package, sorted, mods, old(inBlock));
    }

    /**
     Select packages until the pool is exhausted, the fees get too low, or the block is nearly
     full. `order` is the pool by ancestor score; which of the next pool entry and a modified
     entry is better is left open. Whether the fees of a transaction are too low for sums that are
     kept for it is a parameter.
     */
    method AddPackageTxs(order: seq<Tx>, feeTooLow: (Tx, Mod) -> bool) returns (end: End)
      requires Valid() && Elements(order) == pool.Keys
      modifies this`block, this`inBlock, this`nBlockWeight, this`nBlockSize, this`nBlockSigOpsCost
      ensures Valid() && old(block) <= block && Paid(pool, feeTooLow, old(inBlock), inBlock)
      ensures end == Exhausted ==> Settled(pool, Room(), inBlock, {}) && AllKnown(pool, Base(), block)
      ensures end == FeesTooLow ==> Cheap(pool, feeTooLow, inBlock)
      ensures end == GaveUp ==> nBlockWeight > nBlockMaxWeight - 4000 && (NoRepeats(order) ==> Crammed(pool, Room(), inBlock))
    {
      hide *;
      KnownValid();
      PaidNothing(pool, feeTooLow, inBlock);
      ClosedKnown(pool, inBlock);
      EmptyMods(pool);
      var none: Mods := map[];
      var mods := UpdatePackagesForAdded(pool, inBlock, none, {});
      UpdatedBelow(pool, none, inBlock, mods);
      assert order[0..] == order;
      TrackStart(pool, Room(), inBlock, mods.Keys, order);
      JudgeStart(pool, Base(), block, mods);
      var failedTx: set<Tx> := {};
      var mi := 0;
      var nConsecutiveFailed := 0;
      ghost var misses: set<Tx> := {};
      NoMisses(pool, Room(), inBlock, mods, failedTx, order, mi);
      assert {} + inBlock == inBlock;
      while mi < |order| || |mods| != 0
        invariant Valid() && old(block) <= block && 0 <= mi <= |order| && ModsOk(pool, mods, inBlock)
        invariant inBlock <= pool.Keys && ModsBelow(pool, mods)
        invariant Tracked(pool, Room(), inBlock, mods.Keys, failedTx, Elements(order[mi..]))
        invariant Misses(pool, Room(), inBlock, mods, failedTx, order, mi, misses, nConsecutiveFailed)
        invariant Paid(pool, feeTooLow, old(inBlock), inBlock)
        invariant Base() == old(Base()) && inBlock == Elements(block) && JudgedFailed(pool, Base(), block, mods, failedTx)
        invariant Judged(pool, Base(), block, mods, Elements(order[mi..]))
        decreases Open(pool, inBlock), Pending(order, mi, mods)
      {
        if mi < |order| && (order[mi] in mods || order[mi] in inBlock || order[mi] in failedTx) {
          TrackSkip(pool, Room(), inBlock, mods, order, mi, failedTx);
          JudgeSkip(pool, Base(), block, mods, failedTx, order, mi);
          MissesPass(pool, Room(), inBlock, mods, mods, failedTx, failedTx, order, mi, mi + 1, misses, nConsecutiveFailed);
          mi := mi + 1;
          continue;
        }
        ghost var rest, mi0 := order[mi..], mi;
        var fUsingModified, iter, sums;
        fUsingModified, iter, sums, mi := Choose(order, mi, mods);
        if feeTooLow(iter, sums) {
          CheapOne(pool, feeTooLow, inBlock, iter, sums);
          return FeesTooLow;
        }
        ghost var room, was, mods0 := Room(), inBlock, mods;
        ghost var failed, block0 := failedTx, block;
        var verdict;
        Passing(rest, order[mi..], iter);
        verdict, mods := Consider(iter, sums, mods);
        KnownValid();
        if verdict != Selected && fUsingModified {
          failedTx := failedTx + {iter};
        }
        TrackStep(pool, room, Room(), was, inBlock, mods0, mods, failed, failedTx, rest, order[mi..], iter);
        PaidMore(pool, feeTooLow, old(inBlock), was, inBlock, iter, sums);
        if verdict == Selected {
          nConsecutiveFailed, misses := 0, {};
          NoMisses(pool, Room(), inBlock, mods, failedTx, order, mi);
          PackageFacts(pool, iter, was, block0);
          JudgeSelect(pool, Base(), block0, block, mods0, mods, failed, Elements(rest), Elements(order[mi..]), iter, Package(pool, iter, was));
        } else {
          RefusesIs(iter, sums);
          Judge(pool, Base(), block, mods0, Elements(rest), iter, sums);
          JudgeFail(pool, Base(), block, mods0, failed, failedTx, Elements(rest), Elements(order[mi..]), iter);
          if verdict == TooBig {
            MissesGrow(pool, room, inBlock, mods0, failed, failedTx, order, mi0, mi, misses, nConsecutiveFailed, iter, fUsingModified);
            nConsecutiveFailed, misses := nConsecutiveFailed + 1, misses + {iter};
            if nConsecutiveFailed > MAX_CONSECUTIVE_FAILURES && nBlockWeight > nBlockMaxWeight - 4000 {
              RoomWeight();
              MissesGiveUp(pool, room, inBlock, mods, failedTx, order, mi, misses, nConsecutiveFailed);
              return GaveUp;
            }
          } else {
            WithoutKeys(mods0, iter);
            MissesPass(pool, room, inBlock, mods0, mods, failed, failedTx, order, mi0, mi, misses, nConsecutiveFailed);
          }
        }
      }
      ElementsEnd(order);
      assert mods.Keys == {};
      TrackEnd(pool, Room(), inBlock, failedTx);
      JudgeEnd(pool, Base(), block, mods);
      return Exhausted;
    }

    /** The next entry of the pool order, or any modified entry. */
    method Choose(order: seq<Tx>, mi: nat, mods: Mods) returns (fUsingModified: bool, iter: Tx, sums: Mod, mi': nat)
      requires Valid() && Elements(order) == pool.Keys && ModsOk(pool, mods, inBlock) && ModsBelow(pool, mods)
      requires mi <= |order| && (mi < |order| || |mods| != 0) && (mi < |order| ==> order[mi] !in inBlock && order[mi] !in mods)
      ensures mi' == (if fUsingModified then mi else mi + 1) <= |order| && PassesOver(order[mi..], order[mi'..], iter)
      ensures Pending(order, mi', Without(mods, iter)) < Pending(order, mi, mods)
      ensures iter in pool && iter !in inBlock && Covers(pool, sums, iter, inBlock)
      ensures sums.size <= Full(pool, iter).size && sums.sigOps <= Full(pool, iter).sigOps
      ensures if fUsingModified then iter in mods && sums == mods[iter] else mi < |order| && iter == order[mi] && sums == Full(pool, iter)
    {
      hide Covers, Elements, Sum, ValidPool, Without, ModsOk, ModsBelow;
      fUsingModified := mi == |order|;
      if mi < |order| && |mods| != 0 {
        fUsingModified := *;
      }
      if fUsingModified {
        assert mods.Keys != {};
        iter :| iter in mods;
        ModAt(pool, mods, inBlock, iter);
        BelowAt(pool, mods, iter);
        sums := mods[iter];
        mi' := mi;
      } else {
        ElementsNext(order, mi);
        InOrder(pool, order, mi);
        iter := order[mi];
        FullCovers(pool, iter, inBlock);
        sums := Full(pool, iter);
        mi' := mi + 1;
      }
      ModsRemove(pool, mods, inBlock, iter);
    }

    /**
     Try the package of `iter`, judged by `sums`. A package that fails leaves the block alone
     and takes `iter` out of the modified entries.
     */
    method Consider(iter: Tx, sums: Mod, mods: Mods) returns (verdict: Verdict, mods': Mods)
      requires Valid() && iter in pool && iter !in inBlock && inBlock <= pool.Keys
      requires Covers(pool, sums, iter, inBlock) && ModsOk(pool, mods, inBlock) && ModsBelow(pool, mods)
      requires sums.size <= Full(pool, iter).size && sums.sigOps <= Full(pool, iter).sigOps
      modifies this`block, this`inBlock, this`nBlockWeight, this`nBlockSize, this`nBlockSigOpsCost
      ensures Valid() && old(block) <= block && old(inBlock) <= inBlock <= pool.Keys && ModsOk(pool, mods', inBlock)
      ensures ModsBelow(pool, mods') && OnlyDrops(mods, mods', inBlock, iter)
      ensures Tighter(old(Room()), Room())
      ensures verdict == Selected ==> iter in inBlock && Open(pool, inBlock) < Open(pool, old(inBlock))
      ensures verdict != Selected ==> inBlock == old(inBlock) && mods' == Without(mods, iter) && Hopeless(pool, Room(), iter)
      ensures verdict != Selected ==> Room() == old(Room())
      ensures verdict == TooBig ==> NoRoomFor(pool, Room(), iter)
      ensures verdict != Selected ==> block == old(block) && Refuses(iter, sums)
      ensures verdict == Selected ==> var package := Package(pool, iter, old(inBlock));
                inBlock == old(inBlock) + package && Updated(pool, mods - package, package, package, mods')
      ensures inBlock <= old(inBlock) + Family(pool, iter)
    {
      hide *;
      KnownValid();
      BelowRemove(pool, mods, iter);
      ModsRemove(pool, mods, inBlock, iter);
      mods' := Without(mods, iter);
      var ok := TestPackage(sums.size, sums.sigOps);
      if !ok {
        NoRoom(iter, sums);
        RefusesBig(iter, sums);
        return TooBig, mods';
      }
      var package := Package(pool, iter, inBlock);
      PackageFacts(pool, iter, inBlock, block);
      ok := TestPackageTransactions(package);
      if !ok {
        NotMinable(iter);
        RefusesUnminable(iter, sums);
        return NotFinal, mods';
      }
      PackageFits(sums, iter);
      ghost var before := inBlock;
      mods' := Select(package, mods);
      Shrinks(pool, before, inBlock, iter);
      verdict := Selected;
    }

    // ---------- by priority ----------

    method IsStillDependent(t: Tx) returns (dependent: bool)
      requires t in pool
      ensures dependent <==> !(pool[t].parents <= inBlock)
    {
      var todo := pool[t].parents;
      while todo != {}
        invariant todo <= pool[t].parents && pool[t].parents - todo <= inBlock
      {
        var parent: Tx :| parent in todo;
        if parent !in inBlock {
          return true;
        }
        todo := todo - {parent};
      }
      return false;
    }

    /** Whether the block is so full that nothing more is worth trying after `t` was too large. */
    predicate FullFor(t: Tx)
      requires t in pool
      reads this
    {
      if nBlockWeight + pool[t].weight >= nBlockMaxWeight then nBlockWeight > nBlockMaxWeight - 400 || lastFewTxs > 50
      else if fNeedSizeAccounting && nBlockSize + pool[t].serSize >= nBlockMaxSize then nBlockSize > nBlockMaxSize - 100 || lastFewTxs > 50
      else nBlockSigOpsCost + pool[t].sigOps >= MAX_BLOCK_SIGOPS_COST && nBlockSigOpsCost > MAX_BLOCK_SIGOPS_COST - 8
    }

    /** Whether `t` was too large for a block that is close to full, so that it counts among the last few tries. */
    predicate NearlyFullFor(t: Tx)
      requires t in pool
      reads this
    {
      && !FullFor(t)
      && if nBlockWeight + pool[t].weight >= nBlockMaxWeight then nBlockWeight > nBlockMaxWeight - 4000
         else fNeedSizeAccounting && nBlockSize + pool[t].serSize >= nBlockMaxSize && nBlockSize > nBlockMaxSize - 1000
    }

    method TestForBlock(t: Tx) returns (ok: bool)
      requires t in pool
      modifies this`lastFewTxs, this`blockFinished
      ensures (old(Valid()) ==> Valid()) && Room() == old(Room())
      ensures ok <==> Fits(pool, Room(), {t}) && pool[t].isFinal
      ensures blockFinished == (old(blockFinished) || old(FullFor(t)))
      ensures lastFewTxs == old(lastFewTxs) + if old(NearlyFullFor(t)) then 1 else 0
    {
      hide Sum, ValidPool, BlockOk, Allowed, Elements;
      AddSums(pool, {}, t);
      if nBlockWeight + pool[t].weight >= nBlockMaxWeight {
        if nBlockWeight > nBlockMaxWeight - 400 || lastFewTxs > 50 {
          blockFinished := true;
          return false;
        }
        if nBlockWeight > nBlockMaxWeight - 4000 {
          lastFewTxs := lastFewTxs + 1;
        }
        return false;
      }
      if fNeedSizeAccounting {
        if nBlockSize + pool[t].serSize >= nBlockMaxSize {
          if nBlockSize > nBlockMaxSize - 100 || lastFewTxs > 50 {
            blockFinished := true;
            return false;
          }
          if nBlockSize > nBlockMaxSize - 1000 {
            lastFewTxs := lastFewTxs + 1;
          }
          return false;
        }
      }
      if nBlockSigOpsCost + pool[t].sigOps >= MAX_BLOCK_SIGOPS_COST {
        if nBlockSigOpsCost > MAX_BLOCK_SIGOPS_COST - 8 {
          blockFinished := true;
          return false;
        }
        return false;
      }
      if !pool[t].isFinal {
        return false;
      }
      return true;
    }

    /**
     Fill the block by priority until it holds `nBlockPrioritySize`. The heap is a bag from which
     any element may come first. Nothing comes out of it that is in the block already. If the heap
     runs empty, no transaction is left whose parents are all in the block and that could be added.
     */
    method AddPriorityTxs(blockPrioritySize: nat) returns (end: PriorityEnd)
      requires Valid() && block == [] && nBlockSize == 1000 && lastFewTxs == 0 && !blockFinished
      modifies this
      ensures Valid() && fNeedSizeAccounting == old(fNeedSizeAccounting)
      ensures end == HeapEmpty ==> AllStuck(pool, Room().(sized := true), inBlock)
      ensures end == SizeReached ==> 1000 + Sum(SerSizes(pool), inBlock) >= Min(nBlockMaxSize, blockPrioritySize)
      ensures end == BlockFinished ==> Finished(pool, Room().(sized := true), inBlock)
      ensures end == Disabled <==> Min(nBlockMaxSize, blockPrioritySize) == 0
      ensures end == Disabled ==> block == []
    {
      hide ValidPool, BlockOk, Allowed, AllStuck, Finished, Sum;
      var nBlockPrioritySize := if nBlockMaxSize < blockPrioritySize then nBlockMaxSize else blockPrioritySize;
      if nBlockPrioritySize == 0 {
        return Disabled;
      }
      var fSizeAccounting := fNeedSizeAccounting;
      assert inBlock == {};
      NothingSums(pool);
      fNeedSizeAccounting := true;
      end := RunPriority(nBlockPrioritySize);
      fNeedSizeAccounting := fSizeAccounting;
    }

    method RunPriority(nBlockPrioritySize: int) returns (end: PriorityEnd)
      requires Valid() && block == [] && fNeedSizeAccounting && lastFewTxs == 0 && !blockFinished
      modifies this`block, this`inBlock, this`nBlockWeight, this`nBlockSize, this`nBlockSigOpsCost
      modifies this`lastFewTxs, this`blockFinished
      ensures Valid() && end != Disabled && (end == HeapEmpty ==> AllStuck(pool, Room(), inBlock))
      ensures end == SizeReached ==> nBlockSize >= nBlockPrioritySize
      ensures end == BlockFinished ==> Finished(pool, Room(), inBlock)
    {
      hide *;
      var heap := multiset(pool.Keys);
      var wait: set<Tx> := {};
      ghost var near: set<Tx> := {};
      QueueStart(pool, Room(), block);
      NearStart(pool, Room(), inBlock, heap, wait);
      KnownValid();
      while heap != multiset{} && !blockFinished
        invariant Valid() && Queued(pool, inBlock, heap, wait) && Examined(pool, Room(), inBlock, heap, wait)
        invariant fNeedSizeAccounting && lastFewTxs == |near| && Near(pool, Room(), inBlock, heap, wait, near)
        invariant blockFinished ==> Finished(pool, Room(), inBlock)
        decreases Open(pool, inBlock), |heap|
      {
        var iter: Tx :| iter in heap;
        KnownValid();
        Popped(pool, inBlock, heap, wait, iter);
        ghost var all, room, was := heap, Room(), inBlock;
        heap := heap - multiset{iter};
        assert iter !in inBlock;
        NearPop(pool, room, was, all, wait, near, iter);
        if !fIncludeWitness && pool[iter].hasWitness {
          BarredKeeps(pool, Room(), inBlock, all, wait, iter);
          continue;
        }
        var dependent := IsStillDependent(iter);
        if dependent {
          WaitKeeps(pool, Room(), inBlock, all, wait, iter);
          wait := wait + {iter};
          continue;
        }
        ghost var full, nearly := FullFor(iter), NearlyFullFor(iter);
        FullIs(iter, near);
        var ok := TestForBlock(iter);
        assert Room() == room;
        if ok {
          ParentsEnough(pool, inBlock, iter);
          AllowedSingle(pool, fIncludeWitness, iter);
          AddToBlock(iter);
          if nBlockSize >= nBlockPrioritySize {
            return SizeReached;
          }
          ghost var waiting := wait;
          heap, wait := Requeue(iter, heap, wait);
          AddKeeps(pool, room, was, all, waiting, iter, heap, wait);
          NearAdd(pool, room, was, all, waiting, near, iter, heap, wait);
        } else {
          BarredKeeps(pool, Room(), inBlock, all, wait, iter);
          if full {
            FinishedBy(pool, room, inBlock, all, wait, near, iter);
          }
          if nearly {
            NearMore(pool, room, inBlock, all, wait, near, iter);
            near := near + {iter};
          }
        }
      }
      if heap == multiset{} {
        NothingLeft(pool, Room(), inBlock, wait);
        return HeapEmpty;
      }
      return BlockFinished;
    }

    /** Put the waiting children of an added transaction back on the heap. */
    method Requeue(t: Tx, heap: multiset<Tx>, wait: set<Tx>) returns (heap': multiset<Tx>, wait': set<Tx>)
      ensures wait' == wait - Children(pool, t) && heap' == heap + multiset(wait * Children(pool, t))
    {
      heap', wait' := heap, wait;
      var todo := Children(pool, t);
      while todo != {}
        invariant todo <= Children(pool, t) && wait' == wait - (Children(pool, t) - todo)
        invariant heap' == heap + multiset(wait * (Children(pool, t) - todo))
      {
        var child: Tx :| child in todo;
        if child in wait' {
          heap', wait' := heap' + multiset{child}, wait' - {child};
        }
        todo := todo - {child};
      }
    }

    lemma KnownValid()
      requires Valid()
      ensures ValidPool(pool) && Closed(pool, inBlock) && inBlock <= pool.Keys && Tighter(Room(), Room()) && inBlock == Elements(block)
      ensures Room().segwit == fIncludeWitness
    {
      BlockClosed(pool, block);
      ClosedKnown(pool, inBlock);
    }

    /** Fullness in terms of what is left. */
    lemma FullIs(t: Tx, near: set<Tx>)
      requires t in pool && fNeedSizeAccounting && lastFewTxs == |near|
      ensures FullFor(t) ==> Packed(pool, Room(), t, |near|) && !Fits(pool, Room(), {t})
      ensures NearlyFullFor(t) ==> !Fits(pool, Room(), {t}) && Tight(Room()) && !FullFor(t)
      ensures Fits(pool, Room(), {t}) && pool[t].isFinal ==> !FullFor(t) && !NearlyFullFor(t)
    {
      AddSums(pool, {}, t);
    }

    /** Too big by the given sums, or unfit by exact ones. */
    ghost predicate Refuses(t: Tx, m: Mod)
      reads this
    {
      var r := RoomIn(pool, Base(), inBlock);
      WITNESS_SCALE_FACTOR * m.size >= r.weight || m.sigOps >= r.sigOps || UnfitIn(pool, Base(), inBlock, t)
    }

    lemma RefusesBig(t: Tx, m: Mod)
      requires Valid()
      requires || nBlockWeight + WITNESS_SCALE_FACTOR * m.size >= nBlockMaxWeight
               || nBlockSigOpsCost + m.sigOps >= MAX_BLOCK_SIGOPS_COST
      ensures Refuses(t, m)
    {
      hide Sum, ValidPool, BlockOk, Allowed, Elements, WithinLimits, UnfitIn;
    }

    lemma RefusesUnminable(t: Tx, m: Mod)
      requires Valid() && t in pool && !Minable(Package(pool, t, inBlock))
      ensures Refuses(t, m)
    {
      hide Sum, ValidPool, BlockOk, Allowed, Elements, WithinLimits;
    }

    lemma RefusesIs(t: Tx, m: Mod)
      requires Refuses(t, m)
      ensures var r := RoomIn(pool, Base(), inBlock);
              WITNESS_SCALE_FACTOR * m.size >= r.weight || m.sigOps >= r.sigOps || UnfitIn(pool, Base(), inBlock, t)
    {
    }

    lemma RoomWeight()
      ensures Room().weight == nBlockMaxWeight - nBlockWeight
    {
    }

    lemma NoRoom(t: Tx, m: Mod)
      requires t in pool && m.size <= Full(pool, t).size && m.sigOps <= Full(pool, t).sigOps
      requires || nBlockWeight + WITNESS_SCALE_FACTOR * m.size >= nBlockMaxWeight
               || nBlockSigOpsCost + m.sigOps >= MAX_BLOCK_SIGOPS_COST
      ensures Hopeless(pool, Room(), t) && NoRoomFor(pool, Room(), t)
    {
    }

    lemma NotMinable(t: Tx)
      requires t in pool && Package(pool, t, inBlock) <= pool.Keys
      requires !Minable(Package(pool, t, inBlock))
      ensures Hopeless(pool, Room(), t)
    {
      SumSplit(SerSizes(pool), Family(pool, t), inBlock);
    }

    /** A package whose sums pass the tests really fits: its weight is at most four times its size. */
    lemma PackageFits(m: Mod, t: Tx)
      requires ValidPool(pool) && t in pool && Covers(pool, m, t, inBlock) && Package(pool, t, inBlock) <= pool.Keys
      requires nBlockWeight + WITNESS_SCALE_FACTOR * m.size < nBlockMaxWeight
      requires nBlockSigOpsCost + m.sigOps < MAX_BLOCK_SIGOPS_COST && Minable(Package(pool, t, inBlock))
      ensures Fits(pool, Room(), Package(pool, t, inBlock)) && Allowed(pool, fIncludeWitness, Package(pool, t, inBlock))
    {
      WeightBound(pool, Package(pool, t, inBlock));
    }

    method Select(package: set<Tx>, mods: Mods) returns (mods': Mods)
      requires Valid() && package <= pool.Keys && package !! inBlock && Fits(pool, Room(), package) && ModsOk(pool, mods, inBlock)
      requires Allowed(pool, fIncludeWitness, package)
      requires forall t :: t in package ==> pool[t].ancestors <= inBlock + package
      requires ModsBelow(pool, mods)
      modifies this`block, this`inBlock, this`nBlockWeight, this`nBlockSize, this`nBlockSigOpsCost
      ensures Valid() && inBlock == old(inBlock) + package && old(block) <= block && inBlock <= pool.Keys
      ensures Tighter(old(Room()), Room())
      ensures ModsOk(pool, mods', inBlock) && ModsBelow(pool, mods') && forall t :: OnlyDrops(mods, mods', inBlock, t)
      ensures Updated(pool, mods - package, package, package, mods')
    {
      hide ValidPool, BlockOk, Sum, Counted, WithinLimits, Covers, Updated, Elements, Closed, Fits, Allowed;
      BlockClosed(pool, block);
      ghost var before := inBlock;
      var rest := AddPackage(package, mods);
      mods' := UpdatePackagesForAdded(pool, package, rest, before);
      UpdatedBelow(pool, rest, package, mods');
      BlockClosed(pool, block);
      ClosedKnown(pool, inBlock);
    }
  }

  ghost function With(s: set<Tx>, l: seq<Tx>): set<Tx> { s + Elements(l) }

  ghost function Left(s: set<Tx>, l: seq<Tx>): set<Tx> { s - Elements(l) }

  ghost function Dropped(mods: Mods, l: seq<Tx>): Mods { mods - Elements(l) }

  lemma SortedStart(package: set<Tx>, l: seq<Tx>, mods: Mods, inBlock: set<Tx>)
    ensures With(inBlock, l[..0]) == inBlock && Left(package, l[..0]) == package && Dropped(mods, l[..0]) == mods
  {
    assert Elements(l[..0]) == {} && mods - {} == mods;
  }

  lemma SortedEnd(pool: Pool, package: set<Tx>, l: seq<Tx>, mods: Mods, inBlock: set<Tx>)
    requires SortedFor(pool, package, l)
    ensures With(inBlock, l[..|l|]) == inBlock + package && Dropped(mods, l[..|l|]) == mods - package
  {
    assert l[..|l|] == l;
  }

  lemma SortedStep(pool: Pool, package: set<Tx>, l: seq<Tx>, k: nat, inBlock: set<Tx>)
    requires ValidPool(pool) && SortedFor(pool, package, l) && k < |l| && package !! inBlock
    requires forall t :: t in package ==> t in pool && pool[t].ancestors <= inBlock + package
    ensures l[k] in pool && l[k] in package && l[k] in Left(package, l[..k]) && l[k] !in With(inBlock, l[..k])
    ensures pool[l[k]].ancestors <= With(inBlock, l[..k])
  {
    hide ValidPool;
    SortedAncestors(pool, package, l, k);
    assert l[k] in Elements(l);
  }

  lemma TakeStep(package: set<Tx>, l: seq<Tx>, k: nat, inBlock: set<Tx>, mods: Mods)
    requires k < |l|
    ensures With(inBlock, l[..k + 1]) == With(inBlock, l[..k]) + {l[k]}
    ensures Left(package, l[..k + 1]) == Left(package, l[..k]) - {l[k]}
    ensures Dropped(mods, l[..k + 1]) == Without(Dropped(mods, l[..k]), l[k])
  {
    hide Elements;
    assert l[..k + 1] == l[..k] + [l[k]];
    ElementsAppend(l[..k], l[k]);
  }

  lemma TighterTrans(a: Limits, b: Limits, c: Limits)
    requires Tighter(a, b) && Tighter(b, c)
    ensures Tighter(a, c)
  {
  }

  lemma AllowedOne(pool: Pool, segwit: bool, s: set<Tx>, t: Tx)
    requires Allowed(pool, segwit, s) && t in s
    ensures Allowed(pool, segwit, {t})
  {
  }

  lemma SplitSums(pool: Pool, s: set<Tx>, t: Tx)
    requires t in s && t in pool
    ensures Sum(Weights(pool), s) == Sum(Weights(pool), s - {t}) + pool[t].weight
    ensures Sum(SigOps(pool), s) == Sum(SigOps(pool), s - {t}) + pool[t].sigOps
    ensures Sum(SerSizes(pool), s) == Sum(SerSizes(pool), s - {t}) + pool[t].serSize
    ensures Sum(Weights(pool), {t}) == pool[t].weight && Sum(SigOps(pool), {t}) == pool[t].sigOps
    ensures Sum(SerSizes(pool), {t}) == pool[t].serSize
  {
    AddSums(pool, s - {t}, t);
    assert s - {t} + {t} == s;
  }

  lemma EmptyMods(pool: Pool)
    ensures ModsOk(pool, map[], {}) && Closed(pool, {}) && ModsBelow(pool, map[])
  {
  }

  lemma InOrder(pool: Pool, order: seq<Tx>, i: nat)
    requires Elements(order) == pool.Keys && i < |order|
    ensures order[i] in pool
  {
    assert order[i] in Elements(order);
  }

  lemma ClosedKnown(pool: Pool, s: set<Tx>)
    requires Closed(pool, s)
    ensures s <= pool.Keys
  {
  }

  lemma ModAt(pool: Pool, mods: Mods, inBlock: set<Tx>, t: Tx)
    requires ModsOk(pool, mods, inBlock) && t in mods
    ensures t in pool && t !in inBlock && Covers(pool, mods[t], t, inBlock)
  {
  }

  lemma BelowRemove(pool: Pool, mods: Mods, t: Tx)
    requires ModsBelow(pool, mods)
    ensures ModsBelow(pool, Without(mods, t)) && forall s: set<Tx> :: OnlyDrops(mods, Without(mods, t), s, t)
  {
  }

  lemma ModsRemove(pool: Pool, mods: Mods, inBlock: set<Tx>, t: Tx)
    requires ModsOk(pool, mods, inBlock)
    ensures ModsOk(pool, Without(mods, t), inBlock)
    ensures if t in mods then |Without(mods, t)| < |mods| else Without(mods, t) == mods
  {
    assert (mods - {t}).Keys == mods.Keys - {t};
  }

  lemma PackageFacts(pool: Pool, t: Tx, inBlock: set<Tx>, block: seq<Tx>)
    requires ValidPool(pool) && t in pool && t !in inBlock
    ensures var package := Package(pool, t, inBlock);
            && t in package && package <= pool.Keys && package !! inBlock && package <= Family(pool, t)
            && forall x :: x in package ==> pool[x].ancestors <= inBlock + package
  {
    hide Measured;
    forall x | x in Package(pool, t, inBlock)
      ensures x in pool && pool[x].ancestors <= pool[t].ancestors
    {
    }
  }

  lemma ElementsNext(s: seq<Tx>, i: nat)
    requires i < |s|
    ensures Elements(s[i..]) == Elements(s[i + 1..]) + {s[i]}
  {
    var a, b := s[i..], s[i + 1..];
    assert a == [s[i]] + b;
    forall x | x in Elements(a)
      ensures x in Elements(b) + {s[i]}
    {
      var k :| 0 <= k < |a| && a[k] == x;
      assert k > 0 ==> b[k - 1] == x;
    }
    forall x | x in Elements(b)
      ensures x in Elements(a)
    {
      var k :| 0 <= k < |b| && b[k] == x;
      assert a[k + 1] == x;
    }
    assert a[0] == s[i];
  }

  lemma TrackStart(pool: Pool, r: Limits, inBlock: set<Tx>, open: set<Tx>, order: seq<Tx>)
    requires Elements(order) == pool.Keys
    ensures Tracked(pool, r, inBlock, open, {}, Elements(order))
  {
  }

  lemma TrackSkip(pool: Pool, r: Limits, inBlock: set<Tx>, mods: Mods, order: seq<Tx>, mi: nat, failed: set<Tx>)
    requires mi < |order| && (order[mi] in mods || order[mi] in inBlock || order[mi] in failed)
    requires Tracked(pool, r, inBlock, mods.Keys, failed, Elements(order[mi..]))
    ensures Tracked(pool, r, inBlock, mods.Keys, failed, Elements(order[mi + 1..]))
    ensures Pending(order, mi + 1, mods) < Pending(order, mi, mods)
  {
    hide Elements, Hopeless;
    ElementsNext(order, mi);
  }

  lemma TrackEnd(pool: Pool, r: Limits, inBlock: set<Tx>, failed: set<Tx>)
    requires Tracked(pool, r, inBlock, {}, failed, {})
    ensures Settled(pool, r, inBlock, {})
  {
  }

  lemma BelowAt(pool: Pool, mods: Mods, t: Tx)
    requires ModsBelow(pool, mods) && t in mods
    ensures t in pool && mods[t].size <= Full(pool, t).size && mods[t].sigOps <= Full(pool, t).sigOps
  {
  }

  lemma Passing(rest: seq<Tx>, rest': seq<Tx>, t: Tx)
    requires PassesOver(rest, rest', t)
    ensures Elements(rest) <= Elements(rest') + {t}
  {
  }

  lemma WithoutKeys(mods: Mods, t: Tx)
    ensures Without(mods, t).Keys <= mods.Keys
  {
  }

  lemma NothingSums(pool: Pool)
    ensures Sum(SerSizes(pool), {}) == 0 && Sum(Weights(pool), {}) == 0 && Sum(SigOps(pool), {}) == 0
  {
  }

  lemma ElementsEnd(s: seq<Tx>)
    ensures Elements(s[|s|..]) == {}
  {
  }

  lemma Shrinks(pool: Pool, before: set<Tx>, after: set<Tx>, t: Tx)
    requires before <= after && t in after && t !in before && t in pool
    ensures Open(pool, after) < Open(pool, before)
  {
    var all := pool.Keys;
    SubsetCount(all - after, all - before - {t});
  }

  lemma AddSums(pool: Pool, s: set<Tx>, t: Tx)
    requires t in pool && t !in s
    ensures Sum(Weights(pool), s + {t}) == Sum(Weights(pool), s) + pool[t].weight
    ensures Sum(SigOps(pool), s + {t}) == Sum(SigOps(pool), s) + pool[t].sigOps
    ensures Sum(SerSizes(pool), s + {t}) == Sum(SerSizes(pool), s) + pool[t].serSize
    ensures Sum(Weights(pool), {t}) == pool[t].weight && Sum(SigOps(pool), {t}) == pool[t].sigOps
    ensures Sum(SerSizes(pool), {t}) == pool[t].serSize
  {
    SumRemove(Weights(pool), s + {t}, t);
    SumRemove(SigOps(pool), s + {t}, t);
    SumRemove(SerSizes(pool), s + {t}, t);
    SumRemove(Weights(pool), {t}, t);
    SumRemove(SigOps(pool), {t}, t);
    SumRemove(SerSizes(pool), {t}, t);
    assert s + {t} - {t} == s && {t} - {t} == {};
  }

  /** What is left of the limits once the transactions of `s` are in. */
  ghost function RoomBeside(pool: Pool, maxWeight: int, maxSize: int, segwit: bool, s: set<Tx>): Limits {
    Limits(Clamp(4000, MAX_BLOCK_WEIGHT - 4000, maxWeight) - 4000 - Sum(Weights(pool), s),
           MAX_BLOCK_SIGOPS_COST - 400 - Sum(SigOps(pool), s), Sized(maxSize),
           Clamp(1000, MAX_BLOCK_SERIALIZED_SIZE - 1000, maxSize) - 1000 - Sum(SerSizes(pool), s), segwit)
  }

  /**
   Assemble a block from a pool. Whatever the order of fees and priorities, parents stand before
   children, nothing is mined that must not be, and the limits hold by the true sums; if selection
   ended for want of candidates, nothing that is left out would have fitted with its ancestors.
   */
  method CreateNewBlock(pool: Pool, maxWeight: int, maxSize: int, includeWitness: bool, blockPrioritySize: nat, order: seq<Tx>,
                        feeTooLow: (Tx, Mod) -> bool)
    returns (block: seq<Tx>, end: End)
    requires ValidPool(pool) && Elements(order) == pool.Keys
    ensures BlockOk(pool, block) && Allowed(pool, includeWitness, Elements(block))
    ensures block != [] ==> 4000 + Sum(Weights(pool), Elements(block)) < Clamp(4000, MAX_BLOCK_WEIGHT - 4000, maxWeight)
    ensures block != [] ==> 400 + Sum(SigOps(pool), Elements(block)) < MAX_BLOCK_SIGOPS_COST
    ensures block != [] && Sized(maxSize) ==> 1000 + Sum(SerSizes(pool), Elements(block)) < Clamp(1000, MAX_BLOCK_SERIALIZED_SIZE - 1000, maxSize)
    ensures end == Exhausted ==>
              Settled(pool, RoomBeside(pool, maxWeight, maxSize, includeWitness, Elements(block)), Elements(block), {})
    ensures end == Exhausted ==> AllKnown(pool, RoomBeside(pool, maxWeight, maxSize, includeWitness, {}), block)
    ensures blockPrioritySize == 0 ==> Paid(pool, feeTooLow, {}, Elements(block))
    ensures end == FeesTooLow ==> Cheap(pool, feeTooLow, Elements(block))
    ensures end == GaveUp && NoRepeats(order) ==>
              Crammed(pool, RoomBeside(pool, maxWeight, maxSize, includeWitness, Elements(block)), Elements(block))
  {
    hide ValidPool, BlockOk, Allowed, Settled, Sum, Elements, Paid, Cheap, Crammed, NoRepeats, AllKnown;
    var assembler := new BlockAssembler(pool, maxWeight, maxSize, includeWitness);
    var _ := assembler.AddPriorityTxs(blockPrioritySize);
    ElementsEnd([]);
    end := assembler.AddPackageTxs(order, feeTooLow);
    block := assembler.block;
    NothingSums(pool);
    SizeMatters(pool, assembler.Room(), RoomBeside(pool, maxWeight, maxSize, includeWitness, Elements(block)), Elements(block));
  }

  /** The size limit plays no part while sizes are not counted. */
  lemma SizeMatters(pool: Pool, r: Limits, r': Limits, inBlock: set<Tx>)
    requires r' == r.(size := r'.size) && (r.sized ==> r'.size == r.size)
    ensures Settled(pool, r, inBlock, {}) ==> Settled(pool, r', inBlock, {})
    ensures Crammed(pool, r, inBlock) ==> Crammed(pool, r', inBlock)
  {
    hide Sum, Allowed;
    if Crammed(pool, r, inBlock) {
      var misses: set<Tx> :| |misses| > MAX_CONSECUTIVE_FAILURES && Missed(pool, r, inBlock, misses);
      assert Missed(pool, r', inBlock, misses);
    }
  }

  predicate Sized(maxSize: int) {
    Clamp(1000, MAX_BLOCK_SERIALIZED_SIZE - 1000, maxSize) < MAX_BLOCK_SERIALIZED_SIZE - 1000
  }

  // ---------- the priority queue ----------

  function One(b: bool): nat { if b then 1 else 0 }

  /** Every transaction is at most once on the heap, waiting or in the block; what waits misses a parent. */
  ghost predicate Queued(pool: Pool, inBlock: set<Tx>, heap: multiset<Tx>, wait: set<Tx>) {
    && (forall t: Tx :: heap[t] + One(t in wait) + One(t in inBlock) <= 1)
    && (forall t: Tx :: t in heap ==> t in pool)
    && (forall t: Tx :: t in wait ==> t in pool && !(pool[t].parents <= inBlock))
  }

  ghost predicate Barred(pool: Pool, r: Limits, t: Tx) { !Fits(pool, r, {t}) || !Allowed(pool, r.segwit, {t}) }

  ghost predicate Examined(pool: Pool, r: Limits, inBlock: set<Tx>, heap: multiset<Tx>, wait: set<Tx>) {
    forall t: Tx :: t in pool ==> t in inBlock || t in heap || t in wait || Barred(pool, r, t)
  }

  lemma QueueStart(pool: Pool, r: Limits, block: seq<Tx>)
    requires block == []
    ensures Queued(pool, Elements(block), multiset(pool.Keys), {}) && Examined(pool, r, Elements(block), multiset(pool.Keys), {})
  {
  }

  lemma Popped(pool: Pool, inBlock: set<Tx>, heap: multiset<Tx>, wait: set<Tx>, t: Tx)
    requires Queued(pool, inBlock, heap, wait) && t in heap
    ensures t in pool && t !in inBlock && t !in wait && |heap - multiset{t}| < |heap|
    ensures Queued(pool, inBlock, heap - multiset{t}, wait)
  {
    assert heap[t] >= 1;
    assert heap == heap - multiset{t} + multiset{t};
  }

  lemma BarredKeeps(pool: Pool, r: Limits, inBlock: set<Tx>, heap: multiset<Tx>, wait: set<Tx>, t: Tx)
    requires Examined(pool, r, inBlock, heap, wait) && t in pool
    requires !Fits(pool, r, {t}) || !pool[t].isFinal || (!r.segwit && pool[t].hasWitness)
    ensures Examined(pool, r, inBlock, heap - multiset{t}, wait)
  {
    hide Fits;
    assert t in {t};
  }

  lemma WaitKeeps(pool: Pool, r: Limits, inBlock: set<Tx>, heap: multiset<Tx>, wait: set<Tx>, t: Tx)
    requires Queued(pool, inBlock, heap, wait) && Examined(pool, r, inBlock, heap, wait) && t in heap
    requires t in pool && !(pool[t].parents <= inBlock)
    ensures Queued(pool, inBlock, heap - multiset{t}, wait + {t})
    ensures Examined(pool, r, inBlock, heap - multiset{t}, wait + {t})
  {
    hide Barred;
  }

  lemma BarredStays(pool: Pool, r: Limits, t: Tx, x: Tx)
    requires t in pool && Barred(pool, r, x)
    ensures Barred(pool, Used(pool, r, t), x)
  {
    hide Sum;
  }

  lemma AddKeeps(pool: Pool, r: Limits, inBlock: set<Tx>, heap: multiset<Tx>, wait: set<Tx>, t: Tx, heap': multiset<Tx>, wait': set<Tx>)
    requires Queued(pool, inBlock, heap, wait) && Examined(pool, r, inBlock, heap, wait) && t in heap && t in pool
    requires wait' == wait - Children(pool, t) && heap' == heap - multiset{t} + multiset(wait * Children(pool, t))
    ensures Queued(pool, inBlock + {t}, heap', wait') && Examined(pool, Used(pool, r, t), inBlock + {t}, heap', wait')
    ensures Open(pool, inBlock + {t}) < Open(pool, inBlock)
  {
    hide Queued, Examined;
    AddQueued(pool, inBlock, heap, wait, t, heap', wait');
    AddExamined(pool, r, inBlock, heap, wait, t, heap', wait');
    Popped(pool, inBlock, heap, wait, t);
    Shrinks(pool, inBlock, inBlock + {t}, t);
  }

  lemma AddQueued(pool: Pool, inBlock: set<Tx>, heap: multiset<Tx>, wait: set<Tx>, t: Tx, heap': multiset<Tx>, wait': set<Tx>)
    requires Queued(pool, inBlock, heap, wait) && t in heap && t in pool
    requires wait' == wait - Children(pool, t) && heap' == heap - multiset{t} + multiset(wait * Children(pool, t))
    ensures Queued(pool, inBlock + {t}, heap', wait')
  {
    forall x: Tx | x in wait'
      ensures x in pool && !(pool[x].parents <= inBlock + {t})
    {
      assert t !in pool[x].parents;
      var p :| p in pool[x].parents && p !in inBlock;
    }
  }

  lemma AddExamined(pool: Pool, r: Limits, inBlock: set<Tx>, heap: multiset<Tx>, wait: set<Tx>, t: Tx, heap': multiset<Tx>, wait': set<Tx>)
    requires Examined(pool, r, inBlock, heap, wait) && t in pool
    requires wait' == wait - Children(pool, t) && heap' == heap - multiset{t} + multiset(wait * Children(pool, t))
    ensures Examined(pool, Used(pool, r, t), inBlock + {t}, heap', wait')
  {
    hide Barred, Children;
    forall x: Tx | x in pool && Barred(pool, r, x)
      ensures Barred(pool, Used(pool, r, t), x)
    {
      BarredStays(pool, r, t, x);
    }
  }

  lemma NothingLeft(pool: Pool, r: Limits, inBlock: set<Tx>, wait: set<Tx>)
    requires Queued(pool, inBlock, multiset{}, wait) && Examined(pool, r, inBlock, multiset{}, wait)
    ensures AllStuck(pool, r, inBlock)
  {
    hide Fits, Allowed;
  }

  lemma AllowedSingle(pool: Pool, segwit: bool, t: Tx)
    requires t in pool && pool[t].isFinal && (segwit || !pool[t].hasWitness)
    ensures Allowed(pool, segwit, {t})
  {
  }

  /** With all parents in a block that is closed, all ancestors are. */
  lemma ParentsEnough(pool: Pool, inBlock: set<Tx>, t: Tx)
    requires ValidPool(pool) && Closed(pool, inBlock) && t in pool && pool[t].parents <= inBlock
    ensures pool[t].ancestors <= inBlock
  {
    hide Measured;
  }
}
