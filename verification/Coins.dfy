/**
 The unspent-output cache stack: a database below any number of caches with DIRTY and FRESH
 flags. Each level is proved to look like one flat map from transaction ids to coins, in
 which fully spent coins count as absent.
 */
module Coins {
  import opened Basics

  type TxId = seq<bv8>
  datatype TxOut = TxOut(value: int, script: seq<bv8>)
  datatype Coins = Coins(coinBase: bool, vout: seq<TxOut>, height: int, version: int)
  datatype CacheEntry = CacheEntry(coins: Coins, dirty: bool, unborn: bool)  // unborn: the FRESH flag
  type Cache = map<TxId, CacheEntry>
  type Db = map<TxId, Coins>

  const NULL_OUT := TxOut(-1, [])
  const CLEARED := Coins(false, [], 0, 0)

  predicate IsNull(o: TxOut) { o.value == -1 }

  // ---------- one transaction's coins ----------

  predicate Available(c: Coins, n: nat) { n < |c.vout| && !IsNull(c.vout[n]) }

  predicate Pruned(c: Coins) { forall n :: 0 <= n < |c.vout| ==> IsNull(c.vout[n]) }

  /** No spent output at the end of the list. */
  predicate Clean(c: Coins) { c.vout != [] ==> !IsNull(c.vout[|c.vout| - 1]) }

  function Trim(vout: seq<TxOut>): seq<TxOut> {
    if vout != [] && IsNull(vout[|vout| - 1]) then Trim(vout[..|vout| - 1]) else vout
  }

  function Cleanup(c: Coins): Coins { c.(vout := Trim(c.vout)) }

  lemma {:induction false} TrimFacts(vout: seq<TxOut>)
    ensures Trim(vout) <= vout && (Trim(vout) != [] ==> !IsNull(Trim(vout)[|Trim(vout)| - 1]))
    ensures forall n :: |Trim(vout)| <= n < |vout| ==> IsNull(vout[n])
  {
    if vout != [] && IsNull(vout[|vout| - 1]) {
      TrimFacts(vout[..|vout| - 1]);
    }
  }

  /** Cleaning up drops no unspent output; the result is pruned exactly when it is empty. */
  lemma CleanupFacts(c: Coins)
    ensures Clean(Cleanup(c)) && (Pruned(Cleanup(c)) <==> Pruned(c))
    ensures Pruned(c) <==> Cleanup(c).vout == []
    ensures forall n :: 0 <= n ==> (Available(Cleanup(c), n) <==> Available(c, n))
    ensures forall n :: 0 <= n && Available(c, n) ==> n < |Cleanup(c).vout| && Cleanup(c).vout[n] == c.vout[n]
  {
    TrimFacts(c.vout);
  }

  /** `d` is `c` without the spent outputs at its end, and nothing else. */
  ghost predicate Cleaned(c: Coins, d: Coins) {
    && d.coinBase == c.coinBase && d.height == c.height && d.version == c.version
    && d.vout <= c.vout && (forall n :: |d.vout| <= n < |c.vout| ==> IsNull(c.vout[n])) && Clean(d)
  }

  /** Cleaning up does exactly that. */
  lemma CleanupExact(c: Coins, d: Coins)
    ensures Cleaned(c, d) <==> d == Cleanup(c)
  {
    TrimFacts(c.vout);
    if Cleaned(c, d) {
      var e := Trim(c.vout);
      assert |d.vout| == |e|;
      assert d.vout == e;
    }
  }

  /** Clean coins stay as they are. */
  lemma CleanStays(c: Coins)
    requires Clean(c)
    ensures Cleanup(c) == c
  {
    CleanupExact(c, c);
  }

  lemma CleanPruned(c: Coins)
    requires Clean(c)
    ensures Pruned(c) <==> c.vout == []
  {
  }

  /** Spending output `n`: it must be there, and afterwards exactly it is gone. */
  method Spend(c: Coins, n: nat) returns (ok: bool, r: Coins)
    ensures ok <==> Available(c, n)
    ensures !ok ==> r == c
    ensures ok ==> Clean(r) && forall m :: 0 <= m ==> (Available(r, m) <==> Available(c, m) && m != n)
    ensures forall m :: 0 <= m && m != n && Available(c, m) ==> m < |r.vout| && r.vout[m] == c.vout[m]
    ensures r.coinBase == c.coinBase && r.height == c.height && r.version == c.version
  {
    r := c;
    if n >= |c.vout| || IsNull(c.vout[n]) {
      return false, c;
    }
    var d := c.(vout := c.vout[n := NULL_OUT]);
    CleanupFacts(d);
    var vout := d.vout;
    while vout != [] && IsNull(vout[|vout| - 1])
      invariant Trim(vout) == Trim(d.vout)
      decreases |vout|
    {
      vout := vout[..|vout| - 1];
    }
    r := d.(vout := vout);
    ok := true;
  }

  // ---------- what a stack of caches shows ----------

  /** Fully spent coins count as absent. */
  function Seen(o: Option<Coins>): Option<Coins> {
    if o.Some? && Pruned(o.value) then None else o
  }

  /** The coins found for `id`, searching the caches from the top and then the database. */
  function Look(db: Db, layers: seq<Cache>, id: TxId): Option<Coins> {
    if layers == [] then (if id in db then Some(db[id]) else None)
    else
      var top := layers[|layers| - 1];
      if id in top then Some(top[id].coins) else Look(db, layers[..|layers| - 1], id)
  }

  function Visible(db: Db, layers: seq<Cache>, id: TxId): Option<Coins> { Seen(Look(db, layers, id)) }

  /** What the flags of an entry promise about the view below it. */
  predicate EntryOk(e: CacheEntry, below: Option<Coins>) {
    && Clean(e.coins)
    && (e.unborn ==> below == None)
    && (!e.dirty ==> Seen(Some(e.coins)) == below)
  }

  ghost predicate CacheOk(cache: Cache, db: Db, below: seq<Cache>) {
    forall id :: id in cache ==> EntryOk(cache[id], Visible(db, below, id))
  }

  /** The database holds clean, unpruned coins. */
  ghost predicate DbOk(db: Db) {
    forall id :: id in db ==> Clean(db[id]) && !Pruned(db[id])
  }

  ghost predicate StackOk(db: Db, layers: seq<Cache>) {
    DbOk(db) && forall k :: 0 <= k < |layers| ==> CacheOk(layers[k], db, layers[..k])
  }

  /** Two stacks that show the same at every level. */
  ghost predicate SameViews(db: Db, a: seq<Cache>, b: seq<Cache>) {
    |a| == |b| && forall k, id :: 0 <= k <= |a| ==> Visible(db, b[..k], id) == Visible(db, a[..k], id)
  }

  lemma LookTop(db: Db, below: seq<Cache>, top: Cache, id: TxId)
    ensures Look(db, below + [top], id) == if id in top then Some(top[id].coins) else Look(db, below, id)
  {
    assert (below + [top])[..|below|] == below;
  }

  lemma StackTop(db: Db, below: seq<Cache>, top: Cache)
    ensures StackOk(db, below + [top]) <==> StackOk(db, below) && CacheOk(top, db, below)
  {
    var s := below + [top];
    assert s[..|below|] == below;
    assert forall k :: 0 <= k < |below| ==> s[k] == below[k] && s[..k] == below[..k];
    if StackOk(db, s) {
      assert s[|below|] == top;
    }
  }

  // ---------- reading through the caches ----------

  /** Reading `id` fills the caches on the way; FRESH marks a pruned entry. */
  function Fetch(db: Db, layers: seq<Cache>, id: TxId): (r: (seq<Cache>, Option<Coins>))
    ensures |r.0| == |layers|
    decreases |layers|
  {
    if layers == [] then (layers, if id in db then Some(db[id]) else None)
    else
      var below, top := layers[..|layers| - 1], layers[|layers| - 1];
      if id in top then (layers, Some(top[id].coins))
      else
        var (below', o) := Fetch(db, below, id);
        match o
        case None => (below' + [top], None)
        case Some(c) => (below' + [top[id := CacheEntry(c, false, Pruned(c))]], o)
  }

  lemma SameCacheOk(cache: Cache, db: Db, a: seq<Cache>, b: seq<Cache>)
    requires CacheOk(cache, db, a) && forall id :: Visible(db, b, id) == Visible(db, a, id)
    ensures CacheOk(cache, db, b)
  {
  }

  lemma SameViewsTop(db: Db, a: seq<Cache>, b: seq<Cache>, x: Cache, y: Cache)
    requires SameViews(db, a, b)
    requires forall id :: Look(db, b + [y], id) == Look(db, a + [x], id)
    ensures SameViews(db, a + [x], b + [y])
  {
    var s, t := a + [x], b + [y];
    assert s[..|s|] == s && t[..|t|] == t;
    assert forall k :: 0 <= k <= |a| ==> s[..k] == a[..k] && t[..k] == b[..k];
  }

  /** Reading finds what is there, keeps the stack in order and changes no view. */
  lemma {:induction false} FetchKeeps(db: Db, layers: seq<Cache>, id: TxId)
    requires StackOk(db, layers)
    ensures var (layers', o) := Fetch(db, layers, id);
            && StackOk(db, layers') && o == Look(db, layers, id)
            && (forall x :: Look(db, layers', x) == Look(db, layers, x))
            && SameViews(db, layers, layers')
            && (o.Some? ==> Clean(o.value))
    decreases |layers|
  {
    if layers != [] {
      var below, top := layers[..|layers| - 1], layers[|layers| - 1];
      assert layers == below + [top];
      StackTop(db, below, top);
      if id in top {
        assert CacheOk(top, db, below);
      } else {
        FetchKeeps(db, below, id);
        var (below', o) := Fetch(db, below, id);
        var (layers', _) := Fetch(db, layers, id);
        var top' := layers'[|below|];
        assert layers' == below' + [top'];
        assert below[..|below|] == below && below'[..|below|] == below';
        SameCacheOk(top, db, below, below');
        hide CacheOk, StackOk;
        FetchTop(top, db, below', id, o, top');
        StackTop(db, below', top');
        forall x
          ensures Look(db, layers', x) == Look(db, layers, x)
        {
          LookTop(db, below', top', x);
          LookTop(db, below, top, x);
        }
        SameViewsTop(db, below, below', top, top');
      }
    }
  }

  /**
   Reading fills every cache above the one where the coins are found, and no other: entries that
   were there stay as they are, and new ones are unmodified copies of what was found.
   */
  lemma {:induction false} FetchFills(db: Db, layers: seq<Cache>, id: TxId)
    ensures var (layers', o) := Fetch(db, layers, id);
            && |layers'| == |layers|
            && (forall k, x :: 0 <= k < |layers| && x in layers[k] ==> x in layers'[k] && layers'[k][x] == layers[k][x])
            && (forall k, x :: 0 <= k < |layers| && x in layers'[k] && x !in layers[k] ==>
                  x == id && o.Some? && layers'[k][x] == CacheEntry(o.value, false, Pruned(o.value)))
            && (o.Some? && layers != [] ==> id in layers'[|layers| - 1])
    decreases |layers|
  {
    if layers != [] {
      FetchFills(db, layers[..|layers| - 1], id);
    }
  }

  lemma FetchTop(top: Cache, db: Db, below: seq<Cache>, id: TxId, o: Option<Coins>, top': Cache)
    requires CacheOk(top, db, below) && o == Look(db, below, id) && (o.Some? ==> Clean(o.value))
    requires top' == if o.Some? then top[id := CacheEntry(o.value, false, Pruned(o.value))] else top
    ensures CacheOk(top', db, below)
  {
  }

  // ---------- changing coins in the top cache ----------

  /** The raw coins that a modifier starts from, the caches after finding them, and the FRESH flag. */
  function Open(db: Db, below: seq<Cache>, top: Cache, id: TxId): (r: (seq<Cache>, CacheEntry))
    ensures |r.0| == |below|
  {
    if id in top then (below, top[id].(dirty := true))
    else
      var (below', o) := Fetch(db, below, id);
      (below', if o.None? then CacheEntry(CLEARED, true, true) else CacheEntry(o.value, true, Pruned(o.value)))
  }

  /** Closing a modifier: clean up, and drop an entry that the level below never needs to hear of. */
  function Close(top: Cache, id: TxId, e: CacheEntry): Cache {
    var e' := e.(coins := Cleanup(e.coins));
    if e'.unborn && Pruned(e'.coins) then top - {id} else top[id := e']
  }

  lemma CloseKeeps(db: Db, below: seq<Cache>, top: Cache, id: TxId, e: CacheEntry)
    requires CacheOk(top, db, below) && e.dirty && (e.unborn ==> Visible(db, below, id) == None)
    ensures CacheOk(Close(top, id, e), db, below)
    ensures Visible(db, below + [Close(top, id, e)], id) == Seen(Some(Cleanup(e.coins)))
    ensures forall x :: x != id ==> Look(db, below + [Close(top, id, e)], x) == Look(db, below + [top], x)
  {
    CleanupFacts(e.coins);
    forall x
      ensures Look(db, below + [Close(top, id, e)], x) ==
              if x in Close(top, id, e) then Some(Close(top, id, e)[x].coins) else Look(db, below, x)
    {
      LookTop(db, below, Close(top, id, e), x);
      LookTop(db, below, top, x);
    }
    hide Look, Trim, Cleanup;
    forall x | x != id
      ensures Look(db, below + [Close(top, id, e)], x) == Look(db, below + [top], x)
    {
      LookTop(db, below, top, x);
    }
  }

  /**
   Changing the coins of `id` by `f` in the top cache: the view of the top level changes at
   `id` as `f` says and nowhere else; the views below do not change.
   */
  lemma ModifyKeeps(db: Db, below: seq<Cache>, top: Cache, id: TxId, f: Coins -> Coins)
    requires StackOk(db, below + [top])
    ensures var (below', e) := Open(db, below, top, id);
            var top' := Close(top, id, e.(coins := f(e.coins)));
            && StackOk(db, below' + [top']) && SameViews(db, below, below')
            && Seen(Some(e.coins)) == Visible(db, below + [top], id)
            && Visible(db, below' + [top'], id) == Seen(Some(Cleanup(f(e.coins))))
            && forall x :: x != id ==> Visible(db, below' + [top'], x) == Visible(db, below + [top], x)
  {
    var (below', e) := Open(db, below, top, id);
    var e' := e.(coins := f(e.coins));
    StackTop(db, below, top);
    FetchKeeps(db, below, id);
    LookTop(db, below, top, id);
    assert below[..|below|] == below && below'[..|below|] == below';
    OpenFacts(db, below, top, id);
    SameCacheOk(top, db, below, below');
    hide CacheOk, StackOk, Close, Cleanup, Open, Fetch;
    CloseKeeps(db, below', top, id, e');
    StackTop(db, below', Close(top, id, e'));
    forall x | x != id
      ensures Visible(db, below' + [top], x) == Visible(db, below + [top], x)
    {
      LookTop(db, below', top, x);
      LookTop(db, below, top, x);
    }
  }

  lemma OpenFacts(db: Db, below: seq<Cache>, top: Cache, id: TxId)
    requires StackOk(db, below) && CacheOk(top, db, below)
    ensures var (below', e) := Open(db, below, top, id);
            && e.dirty && (e.unborn ==> Visible(db, below', id) == None)
            && StackOk(db, below') && SameViews(db, below, below')
            && (forall x :: Look(db, below', x) == Look(db, below, x))
            && (forall x :: Visible(db, below', x) == Visible(db, below, x))
  {
    FetchKeeps(db, below, id);
  }

  // ---------- new coins ----------

  /** The entry that `ModifyNewCoins` finds or makes. */
  function Existing(top: Cache, id: TxId): CacheEntry {
    if id in top then top[id] else CacheEntry(CLEARED, false, false)
  }

  /** Whether `ModifyNewCoins` throws. */
  predicate Refused(top: Cache, id: TxId, coinbase: bool) {
    !coinbase && !Pruned(Existing(top, id).coins)
  }

  function OpenNew(top: Cache, id: TxId, coinbase: bool): CacheEntry {
    var e := Existing(top, id);
    CacheEntry(CLEARED, true, e.unborn || (!coinbase && !e.dirty))
  }

  /**
   New coins `c` end up visible in a stack that is in order exactly when they come from a
   coinbase, or their id was in the cache, or the level below shows nothing for it. The last
   is what BIP 30 grants; the code does not look.
   */
  lemma NewCoinsExact(db: Db, below: seq<Cache>, top: Cache, id: TxId, coinbase: bool, c: Coins)
    requires StackOk(db, below + [top]) && !Refused(top, id, coinbase)
    ensures var top' := Close(top, id, OpenNew(top, id, coinbase).(coins := c));
            (StackOk(db, below + [top']) && Visible(db, below + [top'], id) == Seen(Some(Cleanup(c))))
            <==> coinbase || id in top || Visible(db, below, id) == None
    ensures var top' := Close(top, id, OpenNew(top, id, coinbase).(coins := c));
            forall x :: x != id ==> Look(db, below + [top'], x) == Look(db, below + [top], x)
  {
    var e := OpenNew(top, id, coinbase).(coins := c);
    var top' := Close(top, id, e);
    StackTop(db, below, top);
    StackTop(db, below, top');
    assert id in top ==> EntryOk(top[id], Visible(db, below, id));
    LookTop(db, below, top', id);
    CleanupFacts(c);
    hide StackOk, Cleanup, Look;
    forall x | x != id
      ensures Look(db, below + [top'], x) == Look(db, below + [top], x)
    {
      LookTop(db, below, top', x);
      LookTop(db, below, top, x);
    }
    if coinbase || id in top || Visible(db, below, id) == None {
      CloseKeeps(db, below, top, id, e);
    } else {
      assert !EntryOk(e.(coins := Cleanup(c)), Visible(db, below, id));
      assert !Pruned(c) ==> top'[id] == e.(coins := Cleanup(c));
    }
  }

  /** Over coins with the same id below, spending the new coins brings the old ones back. */
  lemma NewCoinsOverOld(id: TxId)
    ensures var was, c := Coins(false, [TxOut(5, [])], 1, 1), Coins(false, [TxOut(7, [])], 2, 1);
            var db, top: Cache := map[id := was], map[];
            var top' := Close(top, id, OpenNew(top, id, false).(coins := c));
            && StackOk(db, [top]) && !Refused(top, id, false) && !StackOk(db, [top'])
            && id in top' && Visible(db, [top'], id) == Some(c)
            && Visible(db, [Close(top', id, top'[id].(coins := c.(vout := [NULL_OUT])))], id) == Some(was)
  {
    var was, c := Coins(false, [TxOut(5, [])], 1, 1), Coins(false, [TxOut(7, [])], 2, 1);
    var db, top: Cache := map[id := was], map[];
    var top' := Close(top, id, OpenNew(top, id, false).(coins := c));
    var spent := c.(vout := [NULL_OUT]);
    var top'' := Close(top', id, top'[id].(coins := spent));
    CleanupFacts(c);
    CleanupFacts(spent);
    assert Available(c, 0) && !Available(spent, 0);
    LookTop(db, [], top', id);
    LookTop(db, [], top'', id);
    assert [] + [top'] == [top'] && [] + [top''] == [top''];
    assert Available(was, 0) && Visible(db, [], id) == Some(was);
    assert top'[id].unborn && !EntryOk(top'[id], Visible(db, [], id));
    assert [top'][..0] == [] && [top'][0] == top';
  }

  /** Under BIP 30, new coins are never refused and the condition above holds. */
  lemma Bip30Suffices(db: Db, below: seq<Cache>, top: Cache, id: TxId, coinbase: bool)
    requires StackOk(db, below + [top]) && (coinbase || Visible(db, below + [top], id) == None)
    ensures !Refused(top, id, coinbase)
    ensures coinbase || id in top || Visible(db, below, id) == None
  {
    LookTop(db, below, top, id);
  }

  // ---------- writing a cache into the level below ----------

  datatype Merge = Entry(e: CacheEntry) | Nothing | Misapplied

  /** What becomes of the parent's entry `p` when the child's entry `c` is written over it. */
  function MergeEntry(p: Option<CacheEntry>, c: CacheEntry): Merge {
    if !c.dirty then (if p.Some? then Entry(p.value) else Nothing)
    else match p
         case None =>
           if c.unborn && Pruned(c.coins) then Nothing else Entry(CacheEntry(c.coins, true, c.unborn))
         case Some(u) =>
           if c.unborn && !Pruned(u.coins) then Misapplied
           else if u.unborn && Pruned(c.coins) then Nothing
           else Entry(u.(coins := c.coins, dirty := true))
  }

  function Find(cache: Cache, id: TxId): Option<CacheEntry> { if id in cache then Some(cache[id]) else None }

  /** The parent cache after the child cache was written into it. */
  ghost function Merged(parent: Cache, child: Cache): Cache {
    map id | id in parent.Keys + child.Keys && (id in child ==> MergeEntry(Find(parent, id), child[id]).Entry?) ::
      if id in child then MergeEntry(Find(parent, id), child[id]).e else parent[id]
  }

  /** With flags that keep their promises, merging is never refused and shows the child's coins. */
  lemma MergeOk(p: Option<CacheEntry>, c: CacheEntry, grand: Option<Coins>)
    requires p.Some? ==> EntryOk(p.value, grand)
    requires EntryOk(c, if p.Some? then Seen(Some(p.value.coins)) else grand)
    ensures match MergeEntry(p, c)
            case Misapplied => false
            case Nothing => grand == Seen(Some(c.coins))
            case Entry(e) => EntryOk(e, grand) && Seen(Some(e.coins)) == Seen(Some(c.coins))
  {
  }

  lemma MergedKeeps(db: Db, below: seq<Cache>, parent: Cache, child: Cache)
    requires StackOk(db, below + [parent]) && CacheOk(child, db, below + [parent])
    ensures forall id :: id in child ==> MergeEntry(Find(parent, id), child[id]) != Misapplied
    ensures StackOk(db, below + [Merged(parent, child)])
    ensures forall id :: Visible(db, below + [Merged(parent, child)], id) == Visible(db, (below + [parent]) + [child], id)
  {
    var m := Merged(parent, child);
    StackTop(db, below, parent);
    StackTop(db, below, m);
    forall id
      ensures Look(db, below + [parent], id) == if id in parent then Some(parent[id].coins) else Look(db, below, id)
      ensures Look(db, below + [m], id) == if id in m then Some(m[id].coins) else Look(db, below, id)
      ensures Look(db, (below + [parent]) + [child], id) ==
              if id in child then Some(child[id].coins) else Look(db, below + [parent], id)
    {
      LookTop(db, below, parent, id);
      LookTop(db, below, m, id);
      LookTop(db, below + [parent], child, id);
    }
    hide Look, StackOk, MergeEntry;
    forall id | id in child
      ensures MergeEntry(Find(parent, id), child[id]) != Misapplied
      ensures id in m ==> EntryOk(m[id], Visible(db, below, id))
      ensures Visible(db, below + [m], id) == Seen(Some(child[id].coins))
    {
      MergeOk(Find(parent, id), child[id], Visible(db, below, id));
    }
  }

  function WriteDb(db: Db, child: Cache): Db {
    map id | id in db.Keys + child.Keys && (if id in child && child[id].dirty then !Pruned(child[id].coins) else id in db) ::
      if id in child && child[id].dirty then child[id].coins else db[id]
  }

  lemma WriteDbKeeps(db: Db, child: Cache)
    requires DbOk(db) && CacheOk(child, db, [])
    ensures DbOk(WriteDb(db, child))
    ensures forall id :: Visible(WriteDb(db, child), [], id) == Visible(db, [] + [child], id)
  {
    forall id
      ensures Visible(WriteDb(db, child), [], id) == Visible(db, [] + [child], id)
    {
      LookTop(db, [], child, id);
      assert id in child ==> EntryOk(child[id], Visible(db, [], id));
    }
    forall id | id in WriteDb(db, child)
      ensures Clean(WriteDb(db, child)[id]) && !Pruned(WriteDb(db, child)[id])
    {
      assert id in child ==> EntryOk(child[id], Visible(db, [], id));
    }
  }

  /** Caches that lie on top do not care how the levels below arrive at what they show. */
  lemma {:induction false} UpperKeeps(db: Db, a: seq<Cache>, db': Db, a': seq<Cache>, upper: seq<Cache>)
    requires StackOk(db, a + upper) && StackOk(db', a')
    requires forall id :: Visible(db', a', id) == Visible(db, a, id)
    ensures StackOk(db', a' + upper)
    ensures forall id :: Visible(db', a' + upper, id) == Visible(db, a + upper, id)
  {
    if upper == [] {
      assert a + upper == a && a' + upper == a';
    } else {
      var rest, top := upper[..|upper| - 1], upper[|upper| - 1];
      assert a + upper == (a + rest) + [top] && a' + upper == (a' + rest) + [top];
      StackTop(db, a + rest, top);
      UpperKeeps(db, a, db', a', rest);
      StackTop(db', a' + rest, top);
      forall id
        ensures Visible(db', a' + upper, id) == Visible(db, a + upper, id)
      {
        LookTop(db, a + rest, top, id);
        LookTop(db', a' + rest, top, id);
        assert Visible(db', a' + rest, id) == Visible(db, a + rest, id);
      }
    }
  }

  // ---------- the stack ----------

  /** One level as a flat map. */
  type Flat = imap<TxId, Coins>

  ghost function FlatOf(db: Db, layers: seq<Cache>): Flat {
    imap id | Visible(db, layers, id).Some? :: Visible(db, layers, id).value
  }

  ghost function Get(m: Flat, id: TxId): Option<Coins> { if id in m then Some(m[id]) else None }

  ghost function Put(m: Flat, id: TxId, c: Coins): Flat {
    if Pruned(c) then imap x | x in m && x != id :: m[x] else m[id := c]
  }

  ghost function Views(db: Db, layers: seq<Cache>): (v: seq<Flat>)
    ensures |v| == |layers| + 1
  {
    seq(|layers| + 1, k requires 0 <= k <= |layers| => FlatOf(db, layers[..k]))
  }

  lemma SameFlat(db: Db, a: seq<Cache>, db': Db, b: seq<Cache>)
    requires forall id :: Visible(db', b, id) == Visible(db, a, id)
    ensures FlatOf(db', b) == FlatOf(db, a)
  {
  }

  lemma SameViewsFlat(db: Db, a: seq<Cache>, b: seq<Cache>)
    requires SameViews(db, a, b)
    ensures Views(db, b) == Views(db, a)
  {
    hide Visible;
    forall k | 0 <= k <= |a|
      ensures Views(db, b)[k] == Views(db, a)[k]
    {
      SameFlat(db, a[..k], db, b[..k]);
    }
  }

  /** Changing the top cache changes the top view only. */
  lemma TopViews(db: Db, below: seq<Cache>, below': seq<Cache>, top: Cache, top': Cache, id: TxId, c: Coins)
    requires SameViews(db, below, below')
    requires Visible(db, below' + [top'], id) == Seen(Some(c))
    requires forall x :: x != id ==> Visible(db, below' + [top'], x) == Visible(db, below + [top], x)
    ensures var v := Views(db, below + [top]);
            Views(db, below' + [top']) == v[|below| + 1 := Put(v[|below| + 1], id, c)]
  {
    var n := |below| + 1;
    var s, s' := below + [top], below' + [top'];
    var v, v' := Views(db, s), Views(db, s');
    assert s[..n] == s && s'[..n] == s';
    assert FlatOf(db, s') == Put(FlatOf(db, s), id, c);
    SameViewsFlat(db, below, below');
    forall k | 0 <= k < n
      ensures v'[k] == v[k]
    {
      assert s[..k] == below[..k] && s'[..k] == below'[..k];
      assert Views(db, below')[k] == Views(db, below)[k];
    }
  }
}
