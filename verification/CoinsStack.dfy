/**
 The stack of coin caches as a mutable object. Level 0 is the database, level k the k-th
 cache; the parent of a cache is the level below it. `Shown()` lists what each level shows.
 */
module CoinsStack {
  import opened Basics
  import opened Coins

  type Hash = seq<bv8>

  /** The best block a level reports: its own, or the one of the level below while it has none. */
  function BestOf(dbBest: Option<Hash>, best: seq<Option<Hash>>): Option<Hash> {
    if best == [] then dbBest
    else if best[|best| - 1].Some? then best[|best| - 1]
    else BestOf(dbBest, best[..|best| - 1])
  }

  lemma BestTop(dbBest: Option<Hash>, below: seq<Option<Hash>>, top: Option<Hash>)
    ensures BestOf(dbBest, below + [top]) == if top.Some? then top else BestOf(dbBest, below)
  {
    assert (below + [top])[..|below|] == below;
  }

  /** Writing the cache at level `k` and its best block into the level below. */
  function FlushBest(dbBest: Option<Hash>, best: seq<Option<Hash>>, k: nat): (Option<Hash>, seq<Option<Hash>>)
    requires 1 <= k <= |best|
  {
    if k == 1 then (if best[0].Some? then best[0] else dbBest, best)
    else (dbBest, best[k - 2 := best[k - 1]])
  }

  /**
   A flush keeps the best block that a level reports exactly when that level has one of its
   own, or writes to the database, or the parent had nothing of its own that differs from what
   lies below it. Otherwise the null hash that is passed down erases the parent's.
   */
  lemma FlushBestExact(dbBest: Option<Hash>, best: seq<Option<Hash>>, k: nat)
    requires 1 <= k <= |best|
    ensures var (dbBest', best') := FlushBest(dbBest, best, k);
            BestOf(dbBest', best'[..k]) == BestOf(dbBest, best[..k])
            <==> best[k - 1].Some? || k == 1 || BestOf(dbBest, best[..k - 1]) == BestOf(dbBest, best[..k - 2])
    ensures var (dbBest', best') := FlushBest(dbBest, best, k);
            BestOf(dbBest', best'[..k - 1]) == BestOf(dbBest, best[..k])
            <==> best[k - 1].Some? || k == 1 || BestOf(dbBest, best[..k - 1]) == BestOf(dbBest, best[..k - 2])
    ensures var (dbBest', best') := FlushBest(dbBest, best, k);
            |best'| == |best| && (forall j :: 0 <= j < |best| && j != k - 2 ==> best'[j] == best[j]) && (k > 1 ==> dbBest' == dbBest)
  {
    var (dbBest', best') := FlushBest(dbBest, best, k);
    assert best[..k] == best[..k - 1] + [best[k - 1]];
    assert best'[..k] == best'[..k - 1] + [best[k - 1]];
    BestTop(dbBest, best[..k - 1], best[k - 1]);
    BestTop(dbBest', best'[..k - 1], best[k - 1]);
    if k > 1 {
      assert best'[..k - 1] == best[..k - 2] + [best[k - 1]];
      BestTop(dbBest, best[..k - 2], best[k - 1]);
    }
  }

  /** A level without a best block of its own, flushed over a parent that has one, loses it. */
  lemma FlushBestLost(hash: Hash)
    ensures var best := [Some(hash), None];
            BestOf(None, best) == Some(hash) && BestOf(FlushBest(None, best, 2).0, FlushBest(None, best, 2).1) == None
  {
    BestTop(None, [Some(hash)], None);
    BestTop(None, [], Some(hash));
    BestTop(None, [None], None);
    assert [Some(hash)] + [None] == [Some(hash), None] && [None] + [None] == [Some(hash), None][0 := None];
  }

  // ---------- levels in the middle ----------

  /** Replacing the lower part of a stack by one that shows the same keeps every higher view. */
  lemma ReplaceLower(db: Db, a: seq<Cache>, db': Db, a': seq<Cache>, upper: seq<Cache>)
    requires StackOk(db, a + upper) && StackOk(db', a') && |a'| == |a|
    requires forall id :: Visible(db', a', id) == Visible(db, a, id)
    ensures StackOk(db', a' + upper)
    ensures forall k :: |a| <= k <= |a| + |upper| ==> Views(db', a' + upper)[k] == Views(db, a + upper)[k]
  {
    hide Visible, StackOk;
    UpperKeeps(db, a, db', a', upper);
    forall k | |a| <= k <= |a| + |upper|
      ensures Views(db', a' + upper)[k] == Views(db, a + upper)[k]
    {
      var part := upper[..k - |a|];
      assert (a + upper)[..k] == a + part && (a' + upper)[..k] == a' + part;
      PrefixOk(db, a + upper, k);
      UpperKeeps(db, a, db', a', part);
      SameFlat(db, a + part, db', a' + part);
    }
  }

  lemma PrefixOk(db: Db, layers: seq<Cache>, k: nat)
    requires StackOk(db, layers) && k <= |layers|
    ensures StackOk(db, layers[..k])
  {
    assert forall j :: 0 <= j < k ==> layers[..k][j] == layers[j] && layers[..k][..j] == layers[..j];
  }

  lemma LowerViews(db: Db, a: seq<Cache>, upper: seq<Cache>, k: nat)
    requires k <= |a|
    ensures Views(db, a + upper)[k] == Views(db, a)[k]
  {
    assert (a + upper)[..k] == a[..k];
  }

  /** Reading through level `k` changes no view of the whole stack. */
  lemma FetchAt(db: Db, layers: seq<Cache>, k: nat, id: TxId)
    requires StackOk(db, layers) && k <= |layers|
    ensures var (lower, o) := Fetch(db, layers[..k], id);
            && StackOk(db, lower + layers[k..]) && Views(db, lower + layers[k..]) == Views(db, layers)
            && Seen(o) == Get(Views(db, layers)[k], id)
            && (o.Some? ==> Clean(o.value))
  {
    hide StackOk, Fetch, Visible;
    var a, upper := layers[..k], layers[k..];
    assert a + upper == layers;
    PrefixOk(db, layers, k);
    FetchKeeps(db, a, id);
    var (a', o) := Fetch(db, a, id);
    LookVisible(db, a, id);
    assert a[..k] == a && a'[..k] == a';
    ReplaceLower(db, a, db, a', upper);
    SameViewsFlat(db, a, a');
    forall j | 0 <= j <= |layers|
      ensures Views(db, a' + upper)[j] == Views(db, layers)[j]
    {
      if j < k {
        LowerViews(db, a, upper, j);
        LowerViews(db, a', upper, j);
      }
    }
  }

  lemma LookVisible(db: Db, layers: seq<Cache>, id: TxId)
    ensures Seen(Look(db, layers, id)) == Visible(db, layers, id)
    ensures Get(FlatOf(db, layers), id) == Visible(db, layers, id)
  {
  }

  /** Dropping an entry without flags changes no view of the whole stack. */
  lemma UncacheAt(db: Db, layers: seq<Cache>, k: nat, id: TxId)
    requires StackOk(db, layers) && 1 <= k <= |layers| && id in layers[k - 1]
    requires !layers[k - 1][id].dirty && !layers[k - 1][id].unborn
    ensures var layers' := layers[k - 1 := layers[k - 1] - {id}];
            StackOk(db, layers') && Views(db, layers') == Views(db, layers)
  {
    var below, top, upper := layers[..k - 1], layers[k - 1], layers[k..];
    var layers' := layers[k - 1 := top - {id}];
    assert layers == (below + [top]) + upper && layers' == (below + [top - {id}]) + upper;
    PrefixOk(db, layers, k);
    assert layers[..k] == below + [top];
    StackTop(db, below, top);
    StackTop(db, below, top - {id});
    hide StackOk, Look;
    forall x
      ensures Visible(db, below + [top - {id}], x) == Visible(db, below + [top], x)
    {
      LookTop(db, below, top, x);
      LookTop(db, below, top - {id}, x);
      assert x == id ==> EntryOk(top[id], Visible(db, below, id));
    }
    hide Visible;
    ReplaceLower(db, below + [top], db, below + [top - {id}], upper);
    forall j | 0 <= j <= |layers|
      ensures Views(db, layers')[j] == Views(db, layers)[j]
    {
      if j < k {
        assert layers'[..j] == layers[..j];
      }
    }
  }

  /** A flush gives the parent the view of the level that is flushed and changes no other view. */
  lemma FlushAt(db: Db, layers: seq<Cache>, k: nat)
    requires StackOk(db, layers) && 2 <= k <= |layers|
    ensures var parent, child := layers[k - 2], layers[k - 1];
            var layers' := layers[k - 2 := Merged(parent, child)][k - 1 := map[]];
            && (forall id :: id in child ==> MergeEntry(Find(parent, id), child[id]) != Misapplied)
            && StackOk(db, layers')
            && Views(db, layers') == Views(db, layers)[k - 1 := Views(db, layers)[k]]
  {
    hide StackOk, Merged, MergeEntry, CacheOk;
    var below, parent, child, upper := layers[..k - 2], layers[k - 2], layers[k - 1], layers[k..];
    var m := Merged(parent, child);
    var layers' := layers[k - 2 := m][k - 1 := map[]];
    var a, a' := below + [parent] + [child], below + [m] + [map[]];
    assert layers == a + upper && layers' == a' + upper && layers[..k] == a;
    PrefixOk(db, layers, k);
    StackTop(db, below + [parent], child);
    MergedKeeps(db, below, parent, child);
    EmptyTop(db, below + [m]);
    StackTop(db, below + [m], map[]);
    assert forall id :: Visible(db, a', id) == Visible(db, a, id);
    hide Visible;
    ReplaceLower(db, a, db, a', upper);
    SameFlat(db, a, db, below + [m]);
    forall j | 0 <= j <= |layers|
      ensures Views(db, layers')[j] == Views(db, layers)[k - 1 := Views(db, layers)[k]][j]
    {
      if j < k - 1 {
        assert layers'[..j] == layers[..j];
      } else if j == k - 1 {
        assert layers'[..j] == below + [m];
      }
    }
  }

  lemma EmptyTop(db: Db, below: seq<Cache>)
    ensures CacheOk(map[], db, below)
    ensures forall id :: Look(db, below + [map[]], id) == Look(db, below, id)
  {
    forall id
      ensures Look(db, below + [map[]], id) == Look(db, below, id)
    {
      LookTop(db, below, map[], id);
    }
  }

  lemma FlushDbAt(db: Db, layers: seq<Cache>)
    requires StackOk(db, layers) && 1 <= |layers|
    ensures var db', layers' := WriteDb(db, layers[0]), layers[0 := map[]];
            StackOk(db', layers') && Views(db', layers') == Views(db, layers)[0 := Views(db, layers)[1]]
  {
    hide StackOk, WriteDb, CacheOk;
    var child, upper := layers[0], layers[1..];
    var db', layers' := WriteDb(db, child), layers[0 := map[]];
    var a, a' := [] + [child], [] + [map[]];
    assert layers == a + upper && layers' == a' + upper && layers[..1] == a;
    PrefixOk(db, layers, 1);
    StackTop(db, [], child);
    DbAlone(db);
    WriteDbKeeps(db, child);
    DbAlone(db');
    EmptyTop(db', []);
    StackTop(db', [], map[]);
    assert forall id :: Visible(db', a', id) == Visible(db, a, id);
    hide Visible;
    ReplaceLower(db, a, db', a', upper);
    SameFlat(db, a, db', []);
    forall j | 0 <= j <= |layers|
      ensures Views(db', layers')[j] == Views(db, layers)[0 := Views(db, layers)[1]][j]
    {
      if j == 0 {
        assert layers'[..0] == [];
      }
    }
  }

  lemma DbAlone(db: Db)
    ensures StackOk(db, []) <==> DbOk(db)
  {
  }

  // ---------- the object ----------

  /** What a step may do to the views of the levels. */
  datatype Op =
    | Read(k: nat, id: TxId)
    | Modify(id: TxId, f: Coins -> Coins)
    | ModifyNew(id: TxId, coinbase: bool, c: Coins)
    | Drop(k: nat, id: TxId)
    | FlushOp(k: nat)
    | PushOp
    | PopOp

  /** The operations that a stack with views `v` admits, with BIP 30 for new coins. */
  ghost predicate Admitted(v: seq<Flat>, op: Op)
    requires v != []
  {
    match op
    case Read(k, _) => k < |v|
    case Modify(_, _) => 2 <= |v|
    case ModifyNew(id, coinbase, _) => 2 <= |v| && (coinbase || id !in v[|v| - 1])
    case Drop(k, _) => 1 <= k < |v|
    case FlushOp(k) => 1 <= k < |v|
    case PushOp => true
    case PopOp => 2 <= |v|
  }

  /** The coins a modifier starts from: those that are found, spent or not, or cleared ones. */
  function Found(o: Option<Coins>): Coins { if o.Some? then o.value else Coins(false, [], 0, 0) }

  lemma OpenFound(db: Db, below: seq<Cache>, top: Cache, id: TxId)
    requires StackOk(db, below + [top])
    ensures Open(db, below, top, id).1.coins == Found(Look(db, below + [top], id))
  {
    StackTop(db, below, top);
    LookTop(db, below, top, id);
    FetchKeeps(db, below, id);
  }

  /** The flat-map machine: a list of maps, of which only the last is ever changed in place. */
  ghost predicate Step(v: seq<Flat>, op: Op, w: seq<Flat>)
    requires v != []
  {
    var n := |v| - 1;
    match op
    case Read(_, _) => w == v
    case Modify(id, f) => exists c :: Seen(Some(c)) == Get(v[n], id) && Puts(v, id, f(c), w)
    case ModifyNew(id, _, c) => Puts(v, id, c, w)
    case Drop(_, _) => w == v
    case FlushOp(k) => 1 <= k <= n && w == v[k - 1 := v[k]]
    case PushOp => w == v + [v[n]]
    case PopOp => w == v[..n]
  }

  /** The last map gets `c` without the spent outputs at its end, or loses its entry if nothing is unspent; the others stay. */
  ghost predicate Puts(v: seq<Flat>, id: TxId, c: Coins, w: seq<Flat>)
    requires v != []
  {
    var n := |v| - 1;
    && |w| == |v| && (forall k :: 0 <= k < n ==> w[k] == v[k])
    && (forall x :: x != id ==> Get(w[n], x) == Get(v[n], x))
    && match Get(w[n], id)
       case None => forall i: nat :: !Available(c, i)
       case Some(d) => Cleaned(c, d) && d.vout != []
  }

  lemma PutsCleanup(v: seq<Flat>, id: TxId, c: Coins)
    requires v != []
    ensures Puts(v, id, c, v[|v| - 1 := Put(v[|v| - 1], id, Cleanup(c))])
  {
    CleanupExact(c, Cleanup(c));
    CleanupFacts(c);
    hide Trim, Cleanup;
    assert Pruned(c) ==> forall i: nat :: !Available(c, i);
  }

  /** What opening, changing and closing does to the levels. */
  lemma ModifyShown(db: Db, below: seq<Cache>, top: Cache, id: TxId, f: Coins -> Coins)
    requires StackOk(db, below + [top])
    ensures var (below', e) := Open(db, below, top, id);
            var after := below' + [Close(top, id, e.(coins := f(e.coins)))];
            && StackOk(db, after) && |below'| == |below|
            && Puts(Views(db, below + [top]), id, f(Found(Look(db, below + [top], id))), Views(db, after))
            && Step(Views(db, below + [top]), Modify(id, f), Views(db, after))
  {
    hide StackOk, Fetch, Cleanup, Visible, Views, Puts, Look;
    var (below', e) := Open(db, below, top, id);
    var top' := Close(top, id, e.(coins := f(e.coins)));
    ModifyKeeps(db, below, top, id, f);
    TopViews(db, below, below', top, top', id, Cleanup(f(e.coins)));
    PutsCleanup(Views(db, below + [top]), id, f(e.coins));
    OpenFound(db, below, top, id);
    GetTop(db, below + [top], id);
    assert Seen(Some(e.coins)) == Get(Views(db, below + [top])[|below| + 1], id);
  }

  ghost predicate Moves(v: seq<Flat>, op: Op, w: seq<Flat>) {
    v != [] && if Admitted(v, op) then Step(v, op, w) else w == v
  }

  class Stack {
    var db: Db
    var dbBest: Option<Hash>
    var layers: seq<Cache>
    var best: seq<Option<Hash>>

    ghost predicate Valid()
      reads this
    {
      StackOk(db, layers) && |best| == |layers|
    }

    ghost function Shown(): (v: seq<Flat>)
      reads this
      ensures |v| == |layers| + 1
    {
      Views(db, layers)
    }

    constructor (db: Db, dbBest: Option<Hash>)
      requires DbOk(db)
      ensures Valid() && layers == [] && this.db == db && this.dbBest == dbBest
    {
      this.db, this.dbBest, layers, best := db, dbBest, [], [];
    }

    /** Look `id` up at level `k`, filling the caches on the way. */
    method FetchCoins(k: nat, id: TxId) returns (o: Option<Coins>)
      requires k <= |layers|
      modifies this`layers
      ensures var (lower, found) := Fetch(db, old(layers)[..k], id);
              layers == lower + old(layers)[k..] && o == found
      decreases k
    {
      ghost var was := layers;
      if k == 0 {
        o := if id in db then Some(db[id]) else None;
        assert layers == [] + layers[0..];
      } else {
        assert was[..k][..k - 1] == was[..k - 1];
        if id in layers[k - 1] {
          o := Some(layers[k - 1][id].coins);
          assert layers == layers[..k] + layers[k..];
        } else {
          o := FetchCoins(k - 1, id);
          ghost var lower := Fetch(db, was[..k - 1], id).0;
          assert layers == lower + was[k - 1..] && layers[k - 1] == was[k - 1];
          if o.Some? {
            var entry := CacheEntry(o.value, false, Pruned(o.value));
            layers := layers[k - 1 := layers[k - 1][id := entry]];
          }
          assert layers == (lower + [layers[k - 1]]) + was[k..];
        }
      }
    }

    /** The coins that level `k` shows for `id`. */
    method GetCoins(k: nat, id: TxId) returns (o: Option<Coins>)
      requires Valid() && k <= |layers|
      modifies this`layers
      ensures Valid() && Shown() == old(Shown()) && |layers| == old(|layers|)
      ensures Seen(o) == Get(Shown()[k], id)
    {
      hide StackOk, Fetch;
      FetchAt(db, layers, k, id);
      o := FetchCoins(k, id);
    }

    /** The test for an empty output list answers whether anything is unspent. */
    method HaveCoins(k: nat, id: TxId) returns (have: bool)
      requires Valid() && k <= |layers|
      modifies this`layers
      ensures Valid() && Shown() == old(Shown()) && |layers| == old(|layers|)
      ensures have <==> id in Shown()[k]
    {
      hide StackOk, Fetch;
      FetchAt(db, layers, k, id);
      var o := FetchCoins(k, id);
      have := o.Some? && o.value.vout != [];
      if o.Some? {
        CleanPruned(o.value);
      }
    }

    /** Open a modifier on the top cache, change the coins by `f`, close it. */
    method ModifyCoins(id: TxId, f: Coins -> Coins)
      requires Valid() && layers != []
      modifies this`layers
      ensures Valid() && |layers| == old(|layers|) && Step(old(Shown()), Modify(id, f), Shown())
      ensures Puts(old(Shown()), id, f(Found(old(Look(db, layers, id)))), Shown())
    {
      hide StackOk, Fetch, Cleanup, Visible, Views, Puts, Look, Step;
      ghost var below, top := layers[..|layers| - 1], layers[|layers| - 1];
      assert layers == below + [top];
      ModifyShown(db, below, top, id, f);
      ghost var (below', e) := Open(db, below, top, id);
      ghost var top' := Close(top, id, e.(coins := f(e.coins)));
      var n := |layers| - 1;
      var entry := CacheEntry(CLEARED, false, false);
      if id !in layers[n] {
        var o := FetchCoins(n, id);
        assert layers == below' + [top];
        if o.None? {
          entry := CacheEntry(CLEARED, false, true);
        } else {
          entry := CacheEntry(o.value, false, Pruned(o.value));
        }
      } else {
        entry := layers[n][id];
      }
      entry := entry.(dirty := true);
      assert entry == e && layers == below' + [top];
      CloseModifier(id, entry.(coins := f(entry.coins)));
      assert layers == below' + [top'];
    }

    method CloseModifier(id: TxId, e: CacheEntry)
      requires layers != []
      modifies this`layers
      ensures layers == old(layers)[|old(layers)| - 1 := Close(old(layers)[|old(layers)| - 1], id, e)]
    {
      var n := |layers| - 1;
      var e' := e.(coins := Cleanup(e.coins));
      if e'.unborn && Pruned(e'.coins) {
        layers := layers[n := layers[n] - {id}];
      } else {
        layers := layers[n := layers[n][id := e']];
      }
    }

    /** Enter new coins `c` for `id`, trusting that no unspent coins exist for it. */
    method ModifyNewCoins(id: TxId, coinbase: bool, c: Coins) returns (ok: bool)
      requires Valid() && layers != []
      modifies this`layers
      ensures ok <==> !Refused(old(layers)[|old(layers)| - 1], id, coinbase)
      ensures |layers| == old(|layers|) && (!ok ==> Shown() == old(Shown()))
      ensures Admitted(old(Shown()), ModifyNew(id, coinbase, c)) ==>
                ok && Valid() && Step(old(Shown()), ModifyNew(id, coinbase, c), Shown())
    {
      hide StackOk, Cleanup, Visible, Views, Look, Puts;
      ghost var below, top := layers[..|layers| - 1], layers[|layers| - 1];
      assert layers == below + [top];
      GetTop(db, layers, id);
      if coinbase || id !in Shown()[|layers|] {
        Bip30Suffices(db, below, top, id, coinbase);
      }
      var n := |layers| - 1;
      var entry := if id in layers[n] then layers[n][id] else CacheEntry(CLEARED, false, false);
      ok := true;
      if !coinbase {
        if !Pruned(entry.coins) {
          return false;
        }
        if !entry.dirty {
          entry := entry.(unborn := true);
        }
      }
      entry := entry.(coins := CLEARED, dirty := true);
      assert entry == OpenNew(top, id, coinbase);
      ghost var top' := Close(top, id, entry.(coins := c));
      NewCoinsExact(db, below, top, id, coinbase, c);
      CloseModifier(id, entry.(coins := c));
      assert layers == below + [top'];
      if Admitted(old(Shown()), ModifyNew(id, coinbase, c)) {
        SameSelf(db, below);
        VisibleOthers(db, below, top, top', id);
        TopViews(db, below, below, top, top', id, Cleanup(c));
        PutsCleanup(old(Shown()), id, c);
      }
    }

    /** Write the child cache into the cache at level `k`; a dirty entry with an unfounded FRESH flag throws. */
    method BatchWrite(k: nat, child: Cache, hash: Option<Hash>) returns (ok: bool)
      requires 1 <= k <= |layers| == |best|
      modifies this`layers, this`best
      ensures ok <==> forall id :: id in child ==> MergeEntry(Find(old(layers)[k - 1], id), child[id]) != Misapplied
      ensures ok ==> layers == old(layers)[k - 1 := Merged(old(layers)[k - 1], child)]
      ensures ok ==> best == old(best)[k - 1 := hash]
    {
      ghost var parent := layers[k - 1];
      var ours := layers[k - 1];
      var todo := child.Keys;
      while todo != {}
        invariant todo <= child.Keys
        invariant forall id :: id in child && id !in todo ==> MergeEntry(Find(parent, id), child[id]) != Misapplied
        invariant forall id :: id in todo || id !in child ==> Find(ours, id) == Find(parent, id)
        invariant forall id :: id in child && id !in todo ==>
                    match MergeEntry(Find(parent, id), child[id])
                    case Entry(e) => Find(ours, id) == Some(e)
                    case _ => Find(ours, id) == None
      {
        var id :| id in todo;
        var c := child[id];
        assert Find(ours, id) == Find(parent, id);
        if c.dirty {
          if id !in ours {
            if !(c.unborn && Pruned(c.coins)) {
              ours := ours[id := CacheEntry(c.coins, true, c.unborn)];
            }
          } else {
            if c.unborn && !Pruned(ours[id].coins) {
              assert MergeEntry(Find(parent, id), child[id]) == Misapplied;
              layers := layers[k - 1 := ours];
              return false;
            }
            if ours[id].unborn && Pruned(c.coins) {
              ours := ours - {id};
            } else {
              ours := ours[id := ours[id].(coins := c.coins, dirty := true)];
            }
          }
        }
        todo := todo - {id};
      }
      assert forall id :: Find(ours, id) == Find(Merged(parent, child), id);
      FindSame(ours, Merged(parent, child));
      layers := layers[k - 1 := ours];
      best := best[k - 1 := hash];
      ok := true;
    }

    /** Push the changes of the cache at level `k` down and empty it. */
    method Flush(k: nat) returns (ok: bool)
      requires Valid() && 1 <= k <= |layers|
      modifies this
      ensures ok && Valid() && |layers| == old(|layers|) && Step(old(Shown()), FlushOp(k), Shown())
      ensures (dbBest, best) == FlushBest(old(dbBest), old(best), k) && layers[k - 1] == map[]
    {
      hide StackOk, WriteDb, Merged, MergeEntry, Views;
      var child := layers[k - 1];
      if k == 1 {
        FlushDbAt(db, layers);
        db := WriteDb(db, child);
        if best[0].Some? {
          dbBest := best[0];
        }
        ok := true;
      } else {
        FlushAt(db, layers, k);
        ok := BatchWrite(k - 1, child, best[k - 1]);
      }
      layers := layers[k - 1 := map[]];
    }

    /** Drop an unmodified entry from the cache at level `k`. */
    method Uncache(k: nat, id: TxId)
      requires Valid() && 1 <= k <= |layers|
      modifies this`layers
      ensures Valid() && |layers| == old(|layers|) && Shown() == old(Shown())
      ensures layers[k - 1] == if id in old(layers)[k - 1] && !old(layers)[k - 1][id].dirty && !old(layers)[k - 1][id].unborn
                               then old(layers)[k - 1] - {id} else old(layers)[k - 1]
    {
      hide StackOk, Views;
      if id in layers[k - 1] && !layers[k - 1][id].dirty && !layers[k - 1][id].unborn {
        UncacheAt(db, layers, k, id);
        layers := layers[k - 1 := layers[k - 1] - {id}];
      }
    }

    /** Put a new, empty cache on top. */
    method Push()
      requires Valid()
      modifies this`layers, this`best
      ensures Valid() && |layers| == old(|layers|) + 1 && Step(old(Shown()), PushOp, Shown())
    {
      hide StackOk;
      PushViews(db, layers);
      layers, best := layers + [map[]], best + [None];
    }

    /** Discard the top cache with its unflushed changes. */
    method Pop()
      requires Valid() && layers != []
      modifies this`layers, this`best
      ensures Valid() && |layers| == old(|layers|) - 1 && Step(old(Shown()), PopOp, Shown())
    {
      hide StackOk;
      PopViews(db, layers);
      layers, best := layers[..|layers| - 1], best[..|best| - 1];
    }

    /** The best block that level `k` reports, remembered on the way up. */
    method GetBest(k: nat) returns (b: Option<Hash>)
      requires k <= |best|
      modifies this`best
      ensures b == BestOf(dbBest, old(best)[..k]) && |best| == old(|best|)
      ensures forall j :: 0 <= j <= |best| ==> BestOf(dbBest, best[..j]) == BestOf(dbBest, old(best)[..j])
    {
      if k == 0 {
        b := dbBest;
      } else {
        ghost var was := best;
        assert was[..k] == was[..k - 1] + [was[k - 1]];
        BestTop(dbBest, was[..k - 1], was[k - 1]);
        if best[k - 1].None? {
          b := GetBest(k - 1);
          ghost var mid := best;
          assert mid[..k] == mid[..k - 1] + [mid[k - 1]];
          BestTop(dbBest, mid[..k - 1], mid[k - 1]);
          best := best[k - 1 := b];
          RememberBest(dbBest, mid, k, b);
        } else {
          b := best[k - 1];
        }
      }
    }

    /** One operation on the stack; it is skipped when the stack does not admit it. */
    method Apply(op: Op) returns (done: bool)
      requires Valid()
      modifies this
      ensures Valid() && (done <==> Admitted(old(Shown()), op))
      ensures if done then Step(old(Shown()), op, Shown()) else Shown() == old(Shown())
    {
      hide StackOk, Views, Cleanup;
      done := true;
      match op {
        case Read(k, id) =>
          if k > |layers| { return false; }
          var _ := GetCoins(k, id);
        case Modify(id, f) =>
          if layers == [] { return false; }
          ModifyCoins(id, f);
        case ModifyNew(id, coinbase, c) =>
          if layers == [] { return false; }
          if !coinbase {
            var have := HaveCoins(|layers|, id);
            if have { return false; }
          }
          var _ := ModifyNewCoins(id, coinbase, c);
        case Drop(k, id) =>
          if k < 1 || k > |layers| { return false; }
          Uncache(k, id);
        case FlushOp(k) =>
          if k < 1 || k > |layers| { return false; }
          var _ := Flush(k);
        case PushOp =>
          Push();
        case PopOp =>
          if layers == [] { return false; }
          Pop();
      }
    }

    /** Any run is a run of the flat-map machine, with one list of views per step. */
    method Run(ops: seq<Op>) returns (ghost trace: seq<seq<Flat>>)
      requires Valid()
      modifies this
      ensures Valid() && |trace| == |ops| + 1 && trace[0] == old(Shown()) && trace[|ops|] == Shown()
      ensures forall n :: 0 <= n < |ops| ==> Moves(trace[n], ops[n], trace[n + 1])
    {
      hide StackOk, Views, Step, Admitted;
      trace := [Shown()];
      for n := 0 to |ops|
        invariant Valid() && |trace| == n + 1 && trace[0] == old(Shown()) && trace[n] == Shown()
        invariant forall i :: 0 <= i < n ==> Moves(trace[i], ops[i], trace[i + 1])
      {
        var _ := Apply(ops[n]);
        trace := trace + [Shown()];
      }
    }
  }

  lemma RememberBest(dbBest: Option<Hash>, best: seq<Option<Hash>>, k: nat, b: Option<Hash>)
    requires 1 <= k <= |best| && b == BestOf(dbBest, best[..k])
    ensures forall j :: 0 <= j <= |best| ==> BestOf(dbBest, best[k - 1 := b][..j]) == BestOf(dbBest, best[..j])
  {
    hide BestOf;
    var c := best[k - 1 := b];
    assert c[..0] == best[..0];
    for j := 0 to |best|
      invariant forall i :: 0 <= i <= j ==> BestOf(dbBest, c[..i]) == BestOf(dbBest, best[..i])
    {
      assert best[..j + 1] == best[..j] + [best[j]] && c[..j + 1] == c[..j] + [c[j]];
      BestTop(dbBest, best[..j], best[j]);
      BestTop(dbBest, c[..j], c[j]);
    }
  }

  lemma FindSame(a: Cache, b: Cache)
    requires forall id :: Find(a, id) == Find(b, id)
    ensures a == b
  {
    assert forall id :: id in a <==> Find(a, id).Some?;
    assert forall id :: id in b <==> Find(b, id).Some?;
    forall id | id in a
      ensures a[id] == b[id]
    {
      assert Find(a, id) == Find(b, id);
    }
  }

  lemma PushViews(db: Db, layers: seq<Cache>)
    requires StackOk(db, layers)
    ensures StackOk(db, layers + [map[]])
    ensures Views(db, layers + [map[]]) == Views(db, layers) + [Views(db, layers)[|layers|]]
  {
    EmptyTop(db, layers);
    StackTop(db, layers, map[]);
    hide StackOk, Look;
    SameFlat(db, layers, db, layers + [map[]]);
    assert layers[..|layers|] == layers;
    forall j | 0 <= j <= |layers| + 1
      ensures Views(db, layers + [map[]])[j] == (Views(db, layers) + [Views(db, layers)[|layers|]])[j]
    {
      if j <= |layers| {
        assert (layers + [map[]])[..j] == layers[..j];
      } else {
        assert (layers + [map[]])[..j] == layers + [map[]];
      }
    }
  }

  lemma PopViews(db: Db, layers: seq<Cache>)
    requires StackOk(db, layers) && layers != []
    ensures StackOk(db, layers[..|layers| - 1])
    ensures Views(db, layers[..|layers| - 1]) == Views(db, layers)[..|layers|]
  {
    PrefixOk(db, layers, |layers| - 1);
    hide StackOk, Visible;
    assert forall j :: 0 <= j < |layers| ==> layers[..|layers| - 1][..j] == layers[..j];
  }

  lemma GetTop(db: Db, layers: seq<Cache>, id: TxId)
    ensures Get(Views(db, layers)[|layers|], id) == Visible(db, layers, id)
  {
    assert layers[..|layers|] == layers;
    LookVisible(db, layers, id);
  }

  lemma SameSelf(db: Db, layers: seq<Cache>)
    ensures SameViews(db, layers, layers)
  {
  }

  lemma VisibleOthers(db: Db, below: seq<Cache>, top: Cache, top': Cache, id: TxId)
    requires forall x :: x != id ==> Look(db, below + [top'], x) == Look(db, below + [top], x)
    ensures forall x :: x != id ==> Visible(db, below + [top'], x) == Visible(db, below + [top], x)
  {
  }
}
