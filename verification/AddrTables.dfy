/**
 The indexes that the address manager keeps in step: id to info, address to id, the random
 order with back-pointers, the two bucket tables, two counters and a reference count per
 entry. Every step on them is proved to keep the consistency condition and to act on the
 book they represent as `AddrBook` says.
 */
module AddrTables {
  import opened AddrBook

  datatype Info = Info(e: Entry, refCount: int, inTried: bool, randomPos: int)

  type Infos = map<nat, Info>

  datatype Tables = Tables(
    nextId: nat, info: Infos, addrs: map<NetAddr, nat>, order: seq<nat>,
    nNew: int, nTried: int, newIds: map<Slot, nat>, triedIds: map<Slot, nat>)

  function IdRefs(table: map<Slot, nat>, id: nat): set<Slot> {
    set s | s in table && table[s] == id
  }

  // ---------- the consistency condition ----------

  /** `addrs` and the addresses stored in `info` are inverse to each other; ids were handed out. */
  ghost predicate Indexed(nextId: nat, info: Infos, addrs: map<NetAddr, nat>) {
    && 0 <= nextId
    && (forall id :: id in info ==>
          0 <= id < nextId && info[id].e.svc.ip in addrs && addrs[info[id].e.svc.ip] == id)
    && (forall a :: a in addrs ==> addrs[a] in info && info[addrs[a]].e.svc.ip == a)
  }

  /** `order` lists every id exactly once and `randomPos` points back into it. */
  ghost predicate Ordered(info: Infos, order: seq<nat>) {
    && (forall id :: id in info ==>
          0 <= info[id].randomPos < |order| && order[info[id].randomPos] == id)
    && (forall k :: 0 <= k < |order| ==> order[k] in info && info[order[k]].randomPos == k)
  }

  ghost predicate TriedPlaced(h: Oracle, info: Infos, triedIds: map<Slot, nat>) {
    && (forall s :: s in triedIds ==>
          && triedIds[s] in info && info[triedIds[s]].inTried
          && s == TriedSlot(h, info[triedIds[s]].e.svc))
    && (forall id :: id in info && info[id].inTried ==>
          TriedSlot(h, info[id].e.svc) in triedIds && triedIds[TriedSlot(h, info[id].e.svc)] == id)
  }

  ghost predicate NewPlaced(h: Oracle, info: Infos, newIds: map<Slot, nat>, limbo: set<nat>) {
    forall s :: s in newIds ==>
      && newIds[s] in info && !info[newIds[s]].inTried && newIds[s] !in limbo
      && 0 <= s.bucket < NEW_BUCKET_COUNT
      && s.pos == BucketPosition(h, true, s.bucket, info[newIds[s]].e.svc)
  }

  /**
   Reference counts are the numbers of new slots. `limbo` holds ids that an operation in
   progress has taken out of both tables.
   */
  ghost predicate RefCounted(info: Infos, newIds: map<Slot, nat>, limbo: set<nat>) {
    && (forall id :: id in limbo ==> id in info && !info[id].inTried)
    && (forall id :: id in info ==> info[id].refCount == |IdRefs(newIds, id)|)
    && (forall id :: id in info && !info[id].inTried && id !in limbo ==>
          1 <= info[id].refCount <= NEW_BUCKETS_PER_ADDRESS)
  }

  function Untried(info: Infos, limbo: set<nat>): set<nat> {
    set id | id in info && !info[id].inTried && id !in limbo
  }

  function TriedSet(info: Infos): set<nat> {
    set id | id in info && info[id].inTried
  }

  /** The counters are exact; `ahead` is how far `nNew` runs ahead in the middle of an operation. */
  ghost predicate Counted(info: Infos, nNew: int, nTried: int, limbo: set<nat>, ahead: int) {
    nNew == |Untried(info, limbo)| + ahead && nTried == |TriedSet(info)|
  }

  ghost predicate Inv(h: Oracle, t: Tables, limbo: set<nat>, ahead: int) {
    && Indexed(t.nextId, t.info, t.addrs) && Ordered(t.info, t.order)
    && TriedPlaced(h, t.info, t.triedIds) && NewPlaced(h, t.info, t.newIds, limbo)
    && RefCounted(t.info, t.newIds, limbo) && Counted(t.info, t.nNew, t.nTried, limbo, ahead)
  }

  /** The condition between operations. */
  ghost predicate Sound(h: Oracle, t: Tables) { Inv(h, t, {}, 0) }

  /** Every id that a table mentions has an info. */
  ghost predicate Known<K>(info: Infos, table: map<K, nat>) {
    forall s :: s in table ==> table[s] in info
  }

  ghost function Entries(info: Infos, addrs: map<NetAddr, nat>): map<NetAddr, Entry> {
    map a | a in addrs && addrs[a] in info :: info[addrs[a]].e
  }

  ghost function Occupants(info: Infos, table: map<Slot, nat>): map<Slot, NetAddr> {
    map s | s in table && table[s] in info :: info[table[s]].e.svc.ip
  }

  ghost predicate Linked(t: Tables) {
    Known(t.info, t.addrs) && Known(t.info, t.newIds) && Known(t.info, t.triedIds)
  }

  /** The book that the indexes represent. */
  ghost function View(t: Tables): Book {
    Book(Entries(t.info, t.addrs), Occupants(t.info, t.newIds), Occupants(t.info, t.triedIds))
  }

  // ---------- the primitive steps ----------

  function CreateT(t: Tables, e: Entry): Tables {
    t.(nextId := t.nextId + 1,
       info := t.info[t.nextId := Info(e, 0, false, |t.order|)],
       addrs := t.addrs[e.svc.ip := t.nextId],
       order := t.order + [t.nextId])
  }

  function SwapRandomT(t: Tables, p1: int, p2: int): Tables
    requires Ordered(t.info, t.order) && 0 <= p1 < |t.order| && 0 <= p2 < |t.order|
  {
    if p1 == p2 then t
    else
      var id1, id2 := t.order[p1], t.order[p2];
      var info1 := t.info[id1 := t.info[id1].(randomPos := p2)];
      t.(info := info1[id2 := info1[id2].(randomPos := p1)],
         order := t.order[p1 := id2][p2 := id1])
  }

  function DeleteT(t: Tables, id: nat): Tables
    requires id in t.info && Ordered(t.info, t.order)
  {
    var t1 := SwapRandomT(t, t.info[id].randomPos, |t.order| - 1);
    t1.(order := t1.order[..|t1.order| - 1],
        addrs := t1.addrs - {t.info[id].e.svc.ip},
        info := t1.info - {id},
        nNew := t1.nNew - 1)
  }

  function UnrefT(t: Tables, s: Slot): Tables
    requires s in t.newIds && t.newIds[s] in t.info
  {
    var id := t.newIds[s];
    t.(info := t.info[id := t.info[id].(refCount := t.info[id].refCount - 1)], newIds := t.newIds - {s})
  }

  function ClearNewT(t: Tables, s: Slot): Tables
    requires Known(t.info, t.newIds) && Ordered(t.info, t.order)
  {
    if s !in t.newIds then t
    else
      var u := UnrefT(t, s);
      var id := t.newIds[s];
      if u.info[id].refCount == 0 then DeleteT(u, id) else u
  }

  function SettleT(t: Tables, s: Slot, id: nat): Tables
    requires id in t.info
  {
    t.(info := t.info[id := t.info[id].(refCount := t.info[id].refCount + 1)], newIds := t.newIds[s := id])
  }

  // ---------- what the primitive steps keep ----------

  /** The same ids with the same entries; reference counts, flags and positions may differ. */
  ghost predicate SameEntries(info: Infos, info': Infos) {
    && info'.Keys == info.Keys
    && forall id :: id in info ==> info'[id].e == info[id].e
  }

  ghost predicate SameFlags(info: Infos, info': Infos) {
    SameEntries(info, info') && forall id :: id in info ==> info'[id].inTried == info[id].inTried
  }

  /** Infos that differ in `randomPos` only. */
  ghost predicate SameButOrder(info: Infos, info': Infos) {
    SameFlags(info, info') && forall id :: id in info ==> info'[id].refCount == info[id].refCount
  }

  lemma SameOrdered(info: Infos, info': Infos, order: seq<nat>)
    requires Ordered(info, order) && info'.Keys == info.Keys
    requires forall id :: id in info ==> info'[id].randomPos == info[id].randomPos
    ensures Ordered(info', order)
  {
  }

  lemma SameTried(h: Oracle, info: Infos, info': Infos, triedIds: map<Slot, nat>)
    requires SameFlags(info, info') && TriedPlaced(h, info, triedIds)
    ensures TriedPlaced(h, info', triedIds)
  {
  }

  lemma SameIndexed(nextId: nat, info: Infos, info': Infos, addrs: map<NetAddr, nat>)
    requires SameEntries(info, info') && Indexed(nextId, info, addrs)
    ensures Indexed(nextId, info', addrs)
  {
  }

  lemma SameBook(info: Infos, info': Infos, addrs: map<NetAddr, nat>, table: map<Slot, nat>)
    requires SameEntries(info, info')
    ensures Entries(info', addrs) == Entries(info, addrs)
    ensures Occupants(info', table) == Occupants(info, table)
  {
  }

  lemma SameCounts(info: Infos, info': Infos, limbo: set<nat>)
    requires SameFlags(info, info')
    ensures Untried(info', limbo) == Untried(info, limbo) && TriedSet(info') == TriedSet(info)
  {
    assert forall id :: id in Untried(info', limbo) <==> id in Untried(info, limbo);
    assert forall id :: id in TriedSet(info') <==> id in TriedSet(info);
  }

  lemma ReorderPlaced(h: Oracle, t: Tables, info': Infos, limbo: set<nat>)
    requires SameButOrder(t.info, info')
    requires TriedPlaced(h, t.info, t.triedIds) && NewPlaced(h, t.info, t.newIds, limbo)
    requires RefCounted(t.info, t.newIds, limbo)
    ensures TriedPlaced(h, info', t.triedIds) && NewPlaced(h, info', t.newIds, limbo)
    ensures RefCounted(info', t.newIds, limbo)
  {
  }

  lemma SwapSame(t: Tables, p1: int, p2: int)
    requires Ordered(t.info, t.order) && 0 <= p1 < |t.order| && 0 <= p2 < |t.order|
    ensures SameButOrder(t.info, SwapRandomT(t, p1, p2).info)
  {
    var u := SwapRandomT(t, p1, p2);
    assert t.order[p1] in t.info && t.order[p2] in t.info;
    hide Ordered;
    assert u.info.Keys == t.info.Keys;
  }

  lemma SwapOrdered(t: Tables, p1: int, p2: int)
    requires Ordered(t.info, t.order) && 0 <= p1 < |t.order| && 0 <= p2 < |t.order|
    ensures var u := SwapRandomT(t, p1, p2); Ordered(u.info, u.order)
  {
    var u := SwapRandomT(t, p1, p2);
    forall k | 0 <= k < |u.order|
      ensures u.order[k] in u.info && u.info[u.order[k]].randomPos == k
    {
      if k != p1 && k != p2 {
        assert u.order[k] == t.order[k];
      }
    }
    forall id | id in u.info
      ensures 0 <= u.info[id].randomPos < |u.order| && u.order[u.info[id].randomPos] == id
    {
      assert t.order[t.info[id].randomPos] == id;
    }
  }

  /** Swapping two positions of the random order keeps everything and changes nothing visible. */
  lemma SwapRandomKeeps(h: Oracle, t: Tables, p1: int, p2: int, limbo: set<nat>, ahead: int)
    requires Inv(h, t, limbo, ahead) && 0 <= p1 < |t.order| && 0 <= p2 < |t.order|
    ensures var u := SwapRandomT(t, p1, p2);
            SameButOrder(t.info, u.info) && Inv(h, u, limbo, ahead) && View(u) == View(t)
  {
    hide Indexed, Ordered, TriedPlaced, NewPlaced, RefCounted, Untried, TriedSet, Entries, Occupants;
    var u := SwapRandomT(t, p1, p2);
    SwapSame(t, p1, p2);
    SwapOrdered(t, p1, p2);
    ReorderPlaced(h, t, u.info, limbo);
    SameCounts(t.info, u.info, limbo);
    SameIndexed(t.nextId, t.info, u.info, t.addrs);
    SameBook(t.info, u.info, t.addrs, t.newIds);
    SameBook(t.info, u.info, t.addrs, t.triedIds);
  }

  lemma CreateOrdered(info: Infos, order: seq<nat>, n: nat, i: Info)
    requires Ordered(info, order) && n !in info && i.randomPos == |order|
    ensures Ordered(info[n := i], order + [n])
  {
  }

  lemma CreatePlaced(h: Oracle, t: Tables, n: nat, i: Info, limbo: set<nat>)
    requires TriedPlaced(h, t.info, t.triedIds) && NewPlaced(h, t.info, t.newIds, limbo)
    requires n !in t.info && !i.inTried
    ensures var info' := t.info[n := i];
            TriedPlaced(h, info', t.triedIds) && NewPlaced(h, info', t.newIds, limbo + {n})
  {
  }

  lemma CreateCounts(info: Infos, newIds: map<Slot, nat>, n: nat, i: Info, limbo: set<nat>)
    requires RefCounted(info, newIds, limbo) && Known(info, newIds) && n !in info && !i.inTried && i.refCount == 0
    ensures var info' := info[n := i];
            && RefCounted(info', newIds, limbo + {n})
            && Untried(info', limbo + {n}) == Untried(info, limbo) && TriedSet(info') == TriedSet(info)
  {
    assert IdRefs(newIds, n) == {};
  }

  lemma CreateOccupants(info: Infos, table: map<Slot, nat>, n: nat, i: Info)
    requires Known(info, table) && n !in info
    ensures Occupants(info[n := i], table) == Occupants(info, table)
  {
  }

  lemma CreateIndexed(t: Tables, i: Info)
    requires Indexed(t.nextId, t.info, t.addrs) && i.e.svc.ip !in t.addrs
    ensures var info' := t.info[t.nextId := i];
            var addrs' := t.addrs[i.e.svc.ip := t.nextId];
            && t.nextId !in t.info && Indexed(t.nextId + 1, info', addrs')
            && Entries(info', addrs') == Entries(t.info, t.addrs)[i.e.svc.ip := i.e]
  {
  }

  lemma EmptySound(h: Oracle)
    ensures var t := Tables(0, map[], map[], [], 0, 0, map[], map[]);
            Sound(h, t) && View(t) == Book(map[], map[], map[])
  {
  }

  lemma InvOrdered(h: Oracle, t: Tables, limbo: set<nat>, ahead: int)
    requires Inv(h, t, limbo, ahead)
    ensures Ordered(t.info, t.order)
  {
    hide Indexed, Ordered, TriedPlaced, NewPlaced, RefCounted, Counted;
  }

  lemma OrderAt(info: Infos, order: seq<nat>, p: nat)
    requires Ordered(info, order) && p < |order|
    ensures order[p] in info && info[order[p]].randomPos == p
  {
  }

  lemma InvKnown(h: Oracle, t: Tables, limbo: set<nat>, ahead: int)
    requires Inv(h, t, limbo, ahead)
    ensures Known(t.info, t.newIds) && Known(t.info, t.triedIds)
  {
    hide Indexed, Ordered, RefCounted, Counted;
  }

  /** A new id is in limbo, and its address is now known. */
  lemma CreateKeeps(h: Oracle, t: Tables, e: Entry, limbo: set<nat>, ahead: int)
    requires Inv(h, t, limbo, ahead) && e.svc.ip !in t.addrs
    ensures var u := CreateT(t, e);
            && Inv(h, u, limbo + {t.nextId}, ahead) && t.nextId !in t.info
            && View(u) == View(t).(entries := View(t).entries[e.svc.ip := e])
  {
    hide Indexed, Ordered, TriedPlaced, NewPlaced, RefCounted, Untried, TriedSet, Entries, Occupants;
    var i := Info(e, 0, false, |t.order|);
    CreateIndexed(t, i);
    CreateOrdered(t.info, t.order, t.nextId, i);
    CreatePlaced(h, t, t.nextId, i, limbo);
    InvKnown(h, t, limbo, ahead);
    CreateCounts(t.info, t.newIds, t.nextId, i, limbo);
    CreateOccupants(t.info, t.newIds, t.nextId, i);
    CreateOccupants(t.info, t.triedIds, t.nextId, i);
  }

  lemma DropIndexed(t: Tables, id: nat)
    requires Indexed(t.nextId, t.info, t.addrs) && id in t.info
    ensures var a := t.info[id].e.svc.ip;
            && Indexed(t.nextId, t.info - {id}, t.addrs - {a})
            && Entries(t.info - {id}, t.addrs - {a}) == Entries(t.info, t.addrs) - {a}
  {
  }

  lemma DropOrdered(info: Infos, order: seq<nat>, id: nat)
    requires Ordered(info, order) && id in info && info[id].randomPos == |order| - 1
    ensures Ordered(info - {id}, order[..|order| - 1])
  {
  }

  lemma DropPlaced(h: Oracle, t: Tables, id: nat, limbo: set<nat>)
    requires TriedPlaced(h, t.info, t.triedIds) && NewPlaced(h, t.info, t.newIds, limbo)
    requires id in limbo && id in t.info && !t.info[id].inTried
    ensures var info' := t.info - {id};
            TriedPlaced(h, info', t.triedIds) && NewPlaced(h, info', t.newIds, limbo - {id})
  {
  }

  lemma DropCounts(info: Infos, newIds: map<Slot, nat>, id: nat, limbo: set<nat>)
    requires RefCounted(info, newIds, limbo) && id in limbo
    ensures var info' := info - {id};
            && RefCounted(info', newIds, limbo - {id})
            && Untried(info', limbo - {id}) == Untried(info, limbo) && TriedSet(info') == TriedSet(info)
  {
  }

  lemma DropOccupants(info: Infos, table: map<Slot, nat>, id: nat)
    requires Known(info - {id}, table)
    ensures Occupants(info - {id}, table) == Occupants(info, table)
  {
  }

  /** `info'` lost some ids; the others kept their entries and flags. */
  ghost predicate SubInfos(info': Infos, info: Infos) {
    forall j :: j in info' ==>
      j in info && info'[j].e == info[j].e && info'[j].inTried == info[j].inTried
  }

  lemma LimboZero(h: Oracle, t: Tables, limbo: set<nat>, ahead: int, id: nat)
    requires Inv(h, t, limbo, ahead) && id in limbo
    ensures id in t.info && !t.info[id].inTried && t.info[id].refCount == 0
  {
    hide Indexed, Ordered, TriedPlaced, Counted;
    assert IdRefs(t.newIds, id) == {};
  }

  lemma LimboUntried(info: Infos, newIds: map<Slot, nat>, limbo: set<nat>, id: nat)
    requires RefCounted(info, newIds, limbo) && id in limbo
    ensures id in info && !info[id].inTried
  {
  }

  /** Dropping an id in limbo that stands last in the random order. */
  lemma DropKeeps(h: Oracle, t: Tables, id: nat, limbo: set<nat>, ahead: int)
    requires Inv(h, t, limbo, ahead) && id in limbo && id in t.info
    requires 0 <= t.info[id].randomPos == |t.order| - 1
    ensures var a := t.info[id].e.svc.ip;
            var u := t.(order := t.order[..|t.order| - 1], addrs := t.addrs - {a},
                        info := t.info - {id}, nNew := t.nNew - 1);
            Inv(h, u, limbo - {id}, ahead - 1) && View(u) == View(t).(entries := View(t).entries - {a})
  {
    hide Indexed, Ordered, TriedPlaced, NewPlaced, RefCounted, Untried, TriedSet, Entries, Occupants, Known;
    LimboUntried(t.info, t.newIds, limbo, id);
    var a := t.info[id].e.svc.ip;
    var u := t.(order := t.order[..|t.order| - 1], addrs := t.addrs - {a},
                info := t.info - {id}, nNew := t.nNew - 1);
    DropIndexed(t, id);
    DropOrdered(t.info, t.order, id);
    DropPlaced(h, t, id, limbo);
    DropCounts(t.info, t.newIds, id, limbo);
    InvKnown(h, u, limbo - {id}, ahead - 1);
    DropOccupants(t.info, t.newIds, id);
    DropOccupants(t.info, t.triedIds, id);
  }

  lemma SwapToLast(t: Tables, id: nat)
    requires Ordered(t.info, t.order) && id in t.info
    ensures var p, last := t.info[id].randomPos, |t.order| - 1;
            && 0 <= p <= last
            && var t1 := SwapRandomT(t, p, last);
               && |t1.order| == |t.order| && id in t1.info
               && t1.info[id].e == t.info[id].e && t1.info[id].randomPos == last
  {
    assert t.order[t.info[id].randomPos] == id;
  }

  lemma DropSub(info: Infos, info1: Infos, id: nat)
    requires SameButOrder(info, info1)
    ensures SubInfos(info1 - {id}, info) && (info1 - {id}).Keys == info.Keys - {id}
  {
  }

  /** Deleting an id in limbo forgets its address and touches nothing else. */
  lemma DeleteKeeps(h: Oracle, t: Tables, id: nat, limbo: set<nat>, ahead: int)
    requires Inv(h, t, limbo, ahead) && id in limbo && id in t.info
    ensures var u := DeleteT(t, id);
            && Inv(h, u, limbo - {id}, ahead - 1)
            && View(u) == View(t).(entries := View(t).entries - {t.info[id].e.svc.ip})
            && SubInfos(u.info, t.info) && u.info.Keys == t.info.Keys - {id}
  {
    hide Indexed, Ordered, TriedPlaced, NewPlaced, RefCounted, Counted, View, SameButOrder;
    var p, last := t.info[id].randomPos, |t.order| - 1;
    SwapToLast(t, id);
    var t1 := SwapRandomT(t, p, last);
    SwapRandomKeeps(h, t, p, last, limbo, ahead);
    DropKeeps(h, t1, id, limbo, ahead);
    DropSub(t.info, t1.info, id);
  }

  lemma RefsAgree(t: Tables, id: nat)
    requires Indexed(t.nextId, t.info, t.addrs) && Known(t.info, t.newIds) && id in t.info
    ensures Refs(View(t), t.info[id].e.svc.ip) == IdRefs(t.newIds, id)
  {
    var a := t.info[id].e.svc.ip;
    assert forall s :: s in t.newIds ==> (View(t).newTab[s] == a <==> t.newIds[s] == id);
  }

  lemma UnrefCounts(info: Infos, newIds: map<Slot, nat>, s: Slot, limbo: set<nat>)
    requires RefCounted(info, newIds, limbo) && s in newIds && newIds[s] in info && newIds[s] !in limbo
    requires !info[newIds[s]].inTried
    ensures var id := newIds[s];
            var info' := info[id := info[id].(refCount := info[id].refCount - 1)];
            && IdRefs(newIds - {s}, id) == IdRefs(newIds, id) - {s}
            && info'[id].refCount == |IdRefs(newIds - {s}, id)|
            && RefCounted(info', newIds - {s}, if info'[id].refCount == 0 then limbo + {id} else limbo)
  {
    var id := newIds[s];
    assert IdRefs(newIds - {s}, id) == IdRefs(newIds, id) - {s};
    forall j | j in info && j != id
      ensures IdRefs(newIds - {s}, j) == IdRefs(newIds, j)
    {
    }
  }

  lemma UnrefSame(t: Tables, s: Slot)
    requires s in t.newIds && t.newIds[s] in t.info
    ensures SameFlags(t.info, UnrefT(t, s).info)
  {
  }

  lemma UnrefPlaced(h: Oracle, t: Tables, s: Slot, limbo: set<nat>)
    requires NewPlaced(h, t.info, t.newIds, limbo) && s in t.newIds && t.newIds[s] in t.info
    ensures var id := t.newIds[s];
            var u := UnrefT(t, s);
            && NewPlaced(h, u.info, u.newIds, limbo)
            && (IdRefs(u.newIds, id) == {} ==> NewPlaced(h, u.info, u.newIds, limbo + {id}))
  {
    var id := t.newIds[s];
    var u := UnrefT(t, s);
    if IdRefs(u.newIds, id) == {} {
      assert forall r :: r in u.newIds ==> r !in IdRefs(u.newIds, id);
    }
  }

  lemma UnrefOccupants(t: Tables, s: Slot)
    requires s in t.newIds && t.newIds[s] in t.info
    ensures var u := UnrefT(t, s); Occupants(u.info, u.newIds) == Occupants(t.info, t.newIds) - {s}
  {
  }

  lemma LimboOne(info: Infos, info': Infos, id: nat, limbo: set<nat>)
    requires SameFlags(info, info') && id in info && !info[id].inTried && id !in limbo
    ensures |Untried(info', limbo + {id})| == |Untried(info, limbo)| - 1
  {
    assert forall j :: j in Untried(info', limbo + {id}) <==> j in Untried(info, limbo) - {id};
    assert Untried(info', limbo + {id}) == Untried(info, limbo) - {id};
  }

  lemma PlacedAt(h: Oracle, info: Infos, newIds: map<Slot, nat>, limbo: set<nat>, s: Slot)
    requires NewPlaced(h, info, newIds, limbo) && s in newIds
    ensures newIds[s] in info && !info[newIds[s]].inTried && newIds[s] !in limbo
  {
  }

  /** Taking a slot away from an id lowers its count by one and touches nobody else's. */
  lemma UnrefKeeps(h: Oracle, t: Tables, s: Slot, limbo: set<nat>, ahead: int)
    requires Inv(h, t, limbo, ahead) && s in t.newIds
    ensures var id := t.newIds[s];
            id in t.info &&
            var u := UnrefT(t, s);
            && View(u) == View(t).(newTab := View(t).newTab - {s})
            && IdRefs(u.newIds, id) == IdRefs(t.newIds, id) - {s}
            && u.info[id].refCount == |IdRefs(u.newIds, id)|
            && if u.info[id].refCount == 0 then Inv(h, u, limbo + {id}, ahead + 1) else Inv(h, u, limbo, ahead)
  {
    hide Indexed, Ordered, RefCounted, TriedPlaced, NewPlaced, Entries, Occupants, SameFlags, Untried, TriedSet, IdRefs;
    var id := t.newIds[s];
    PlacedAt(h, t.info, t.newIds, limbo, s);
    var u := UnrefT(t, s);
    UnrefCounts(t.info, t.newIds, s, limbo);
    UnrefPlaced(h, t, s, limbo);
    UnrefOccupants(t, s);
    UnrefSame(t, s);
    SameOrdered(t.info, u.info, t.order);
    SameAll(h, t, u.info, limbo);
    if u.info[id].refCount == 0 {
      LimboOne(t.info, u.info, id, limbo);
    }
  }

  /** What depends on the entries and flags only is the same for infos that agree on them. */
  lemma SameAll(h: Oracle, t: Tables, info': Infos, limbo: set<nat>)
    requires SameFlags(t.info, info') && Indexed(t.nextId, t.info, t.addrs) && TriedPlaced(h, t.info, t.triedIds)
    ensures Indexed(t.nextId, info', t.addrs) && TriedPlaced(h, info', t.triedIds)
    ensures Untried(info', limbo) == Untried(t.info, limbo) && TriedSet(info') == TriedSet(t.info)
    ensures Entries(info', t.addrs) == Entries(t.info, t.addrs)
    ensures Occupants(info', t.triedIds) == Occupants(t.info, t.triedIds)
  {
    hide Indexed, TriedPlaced, Entries, Occupants, Untried, TriedSet, SameEntries;
    SameIndexed(t.nextId, t.info, info', t.addrs);
    SameBook(t.info, info', t.addrs, t.triedIds);
    SameCounts(t.info, info', limbo);
    SameTried(h, t.info, info', t.triedIds);
  }

  lemma OccupantAt(t: Tables, s: Slot)
    requires Known(t.info, t.newIds)
    ensures s in View(t).newTab <==> s in t.newIds
    ensures s in t.newIds ==> View(t).newTab[s] == t.info[t.newIds[s]].e.svc.ip
  {
  }

  /** Clearing a new slot is displacing its occupant, whatever else is in limbo. */
  lemma ClearNewKeeps(h: Oracle, t: Tables, s: Slot, limbo: set<nat>, ahead: int)
    requires Inv(h, t, limbo, ahead) && Known(t.info, t.newIds)
    ensures var u := ClearNewT(t, s);
            && Inv(h, u, limbo, ahead) && View(u) == Displace(View(t), s) && s !in u.newIds
            && SubInfos(u.info, t.info)
            && u.info.Keys == (if s in t.newIds && t.info[t.newIds[s]].refCount == 1
                               then t.info.Keys - {t.newIds[s]} else t.info.Keys)
  {
    hide Indexed, Ordered, TriedPlaced, NewPlaced, RefCounted, Counted, Entries, Occupants, IdRefs, Refs, Known, SameFlags;
    OccupantAt(t, s);
    if s in t.newIds {
      var id := t.newIds[s];
      PlacedAt(h, t.info, t.newIds, limbo, s);
      UnrefKeeps(h, t, s, limbo, ahead);
      var u := UnrefT(t, s);
      UnrefSame(t, s);
      UnrefRefs(t, s);
      FlagsSub(t.info, u.info);
      if u.info[id].refCount == 0 {
        DeleteKeeps(h, u, id, limbo + {id}, ahead + 1);
        assert limbo + {id} - {id} == limbo;
      }
    }
  }

  lemma FlagsSub(info: Infos, info': Infos)
    requires SameFlags(info, info')
    ensures SubInfos(info', info) && info'.Keys == info.Keys
  {
  }

  lemma UnrefRefs(t: Tables, s: Slot)
    requires Known(t.info, t.newIds) && Indexed(t.nextId, t.info, t.addrs) && s in t.newIds
    ensures var u := UnrefT(t, s);
            Refs(View(u), t.info[t.newIds[s]].e.svc.ip) == IdRefs(u.newIds, t.newIds[s])
  {
    var u := UnrefT(t, s);
    UnrefSame(t, s);
    SameIndexed(t.nextId, t.info, u.info, t.addrs);
    assert Known(u.info, u.newIds);
    hide Indexed, SameFlags;
    RefsAgree(u, t.newIds[s]);
  }

  lemma SettleCounts(info: Infos, newIds: map<Slot, nat>, s: Slot, id: nat, limbo: set<nat>)
    requires RefCounted(info, newIds, limbo) && s !in newIds && id in info && !info[id].inTried
    requires info[id].refCount < NEW_BUCKETS_PER_ADDRESS
    ensures var info' := info[id := info[id].(refCount := info[id].refCount + 1)];
            RefCounted(info', newIds[s := id], limbo - {id})
  {
    assert IdRefs(newIds[s := id], id) == IdRefs(newIds, id) + {s};
    forall j | j in info && j != id
      ensures IdRefs(newIds[s := id], j) == IdRefs(newIds, j)
    {
    }
  }

  lemma SettlePlaced(h: Oracle, t: Tables, s: Slot, id: nat, limbo: set<nat>)
    requires NewPlaced(h, t.info, t.newIds, limbo) && id in t.info && !t.info[id].inTried
    requires 0 <= s.bucket < NEW_BUCKET_COUNT && s.pos == BucketPosition(h, true, s.bucket, t.info[id].e.svc)
    ensures var u := SettleT(t, s, id); NewPlaced(h, u.info, u.newIds, limbo - {id})
  {
  }

  lemma SettleOccupants(t: Tables, s: Slot, id: nat)
    requires id in t.info && s !in t.newIds
    ensures var u := SettleT(t, s, id);
            && Occupants(u.info, u.newIds) == Occupants(t.info, t.newIds)[s := t.info[id].e.svc.ip]
            && SameFlags(t.info, u.info)
  {
  }

  lemma UnlimboOne(info: Infos, info': Infos, id: nat, limbo: set<nat>)
    requires SameFlags(info, info') && id in info && !info[id].inTried && id in limbo
    ensures |Untried(info', limbo - {id})| == |Untried(info, limbo)| + 1
  {
    assert forall j :: j in Untried(info', limbo - {id}) <==> j in Untried(info, limbo) + {id};
    assert Untried(info', limbo - {id}) == Untried(info, limbo) + {id};
  }

  /** Putting an id into a free new slot of its own takes it out of limbo. */
  lemma SettleKeeps(h: Oracle, t: Tables, s: Slot, id: nat, limbo: set<nat>, ahead: int)
    requires Inv(h, t, limbo, ahead) && id in t.info && !t.info[id].inTried && s !in t.newIds
    requires t.info[id].refCount < NEW_BUCKETS_PER_ADDRESS
    requires 0 <= s.bucket < NEW_BUCKET_COUNT && s.pos == BucketPosition(h, true, s.bucket, t.info[id].e.svc)
    ensures var u := SettleT(t, s, id);
            && Inv(h, u, limbo - {id}, if id in limbo then ahead - 1 else ahead)
            && View(u) == View(t).(newTab := View(t).newTab[s := t.info[id].e.svc.ip])
  {
    hide Indexed, Ordered, RefCounted, TriedPlaced, NewPlaced, Entries, Occupants, SameFlags, Untried, TriedSet;
    var u := SettleT(t, s, id);
    SettleCounts(t.info, t.newIds, s, id, limbo);
    SettlePlaced(h, t, s, id, limbo);
    SettleOccupants(t, s, id);
    SameOrdered(t.info, u.info, t.order);
    SameAll(h, t, u.info, limbo);
    if id in limbo {
      UnlimboOne(t.info, u.info, id, limbo);
    } else {
      assert limbo - {id} == limbo;
    }
  }

  // ---------- moving between the tables ----------

  function TouchT(t: Tables, id: nat, e: Entry): Tables
    requires id in t.info
  {
    t.(info := t.info[id := t.info[id].(e := e)])
  }

  /** Take `id` out of every new slot. */
  function EraseT(t: Tables, id: nat): Tables
    requires id in t.info
  {
    t.(info := t.info[id := t.info[id].(refCount := 0)], newIds := t.newIds - IdRefs(t.newIds, id))
  }

  function UntryT(t: Tables, s: Slot): Tables
    requires s in t.triedIds && t.triedIds[s] in t.info
  {
    var id := t.triedIds[s];
    t.(info := t.info[id := t.info[id].(inTried := false)], triedIds := t.triedIds - {s}, nTried := t.nTried - 1)
  }

  function TryT(t: Tables, s: Slot, id: nat): Tables
    requires id in t.info
  {
    t.(info := t.info[id := t.info[id].(inTried := true)], triedIds := t.triedIds[s := id], nTried := t.nTried + 1)
  }

  /** Updating the statistics of an entry changes that entry of the book and nothing else. */
  lemma TouchKeeps(h: Oracle, t: Tables, id: nat, e: Entry, limbo: set<nat>, ahead: int)
    requires Inv(h, t, limbo, ahead) && id in t.info && e.svc == t.info[id].e.svc
    ensures var u := TouchT(t, id, e);
            && Inv(h, u, limbo, ahead)
            && View(u) == View(t).(entries := View(t).entries[e.svc.ip := e])
            && u.info.Keys == t.info.Keys
  {
    var u := TouchT(t, id, e);
    hide Indexed, Ordered, RefCounted, TriedPlaced, NewPlaced, Entries, Occupants, Untried, TriedSet;
    TouchPlaced(h, t, id, e, limbo);
    TouchCounts(t.info, t.newIds, id, e, limbo);
    TouchIndexed(t, id, e);
    SameOrdered(t.info, u.info, t.order);
    TouchOccupants(t.info, t.newIds, id, e);
    TouchOccupants(t.info, t.triedIds, id, e);
  }

  lemma TouchPlaced(h: Oracle, t: Tables, id: nat, e: Entry, limbo: set<nat>)
    requires TriedPlaced(h, t.info, t.triedIds) && NewPlaced(h, t.info, t.newIds, limbo)
    requires id in t.info && e.svc == t.info[id].e.svc
    ensures var u := TouchT(t, id, e);
            TriedPlaced(h, u.info, t.triedIds) && NewPlaced(h, u.info, t.newIds, limbo)
  {
  }

  lemma TouchCounts(info: Infos, newIds: map<Slot, nat>, id: nat, e: Entry, limbo: set<nat>)
    requires RefCounted(info, newIds, limbo) && id in info
    ensures var info' := info[id := info[id].(e := e)];
            && RefCounted(info', newIds, limbo)
            && Untried(info', limbo) == Untried(info, limbo) && TriedSet(info') == TriedSet(info)
  {
  }

  lemma TouchIndexed(t: Tables, id: nat, e: Entry)
    requires Indexed(t.nextId, t.info, t.addrs) && id in t.info && e.svc == t.info[id].e.svc
    ensures var u := TouchT(t, id, e);
            && Indexed(t.nextId, u.info, t.addrs)
            && Entries(u.info, t.addrs) == Entries(t.info, t.addrs)[e.svc.ip := e]
  {
  }

  lemma TouchOccupants(info: Infos, table: map<Slot, nat>, id: nat, e: Entry)
    requires id in info && e.svc == info[id].e.svc
    ensures Occupants(info[id := info[id].(e := e)], table) == Occupants(info, table)
  {
  }

  lemma EraseSame(t: Tables, id: nat)
    requires id in t.info
    ensures SameFlags(t.info, EraseT(t, id).info)
  {
  }

  lemma ErasePlaced(h: Oracle, t: Tables, id: nat, limbo: set<nat>)
    requires NewPlaced(h, t.info, t.newIds, limbo) && id in t.info
    ensures var u := EraseT(t, id); NewPlaced(h, u.info, u.newIds, limbo + {id})
  {
  }

  lemma EraseCounts(t: Tables, id: nat, limbo: set<nat>)
    requires RefCounted(t.info, t.newIds, limbo) && id in t.info && !t.info[id].inTried
    ensures var u := EraseT(t, id); RefCounted(u.info, u.newIds, limbo + {id})
  {
    var u := EraseT(t, id);
    assert IdRefs(u.newIds, id) == {};
    forall j | j in t.info && j != id
      ensures IdRefs(u.newIds, j) == IdRefs(t.newIds, j)
    {
    }
  }

  lemma EraseOccupants(t: Tables, id: nat)
    requires Indexed(t.nextId, t.info, t.addrs) && Known(t.info, t.newIds) && id in t.info
    ensures var u := EraseT(t, id);
            Occupants(u.info, u.newIds) == View(t).newTab - Refs(View(t), t.info[id].e.svc.ip)
  {
    hide Indexed;
    RefsAgree(t, id);
  }

  /** Erasing every new slot of an id puts it into limbo. */
  lemma EraseKeeps(h: Oracle, t: Tables, id: nat, limbo: set<nat>, ahead: int)
    requires Inv(h, t, limbo, ahead) && id in t.info && !t.info[id].inTried && id !in limbo
    ensures var u := EraseT(t, id);
            && Inv(h, u, limbo + {id}, ahead + 1)
            && View(u) == View(t).(newTab := View(t).newTab - Refs(View(t), t.info[id].e.svc.ip))
            && SameFlags(t.info, u.info)
  {
    hide Indexed, Ordered, RefCounted, TriedPlaced, NewPlaced, Entries, Occupants, SameFlags, Untried, TriedSet, Refs, IdRefs, Known;
    var u := EraseT(t, id);
    EraseSame(t, id);
    ErasePlaced(h, t, id, limbo);
    EraseCounts(t, id, limbo);
    InvKnown(h, t, limbo, ahead);
    EraseOccupants(t, id);
    SameOrdered(t.info, u.info, t.order);
    SameAll(h, t, u.info, limbo);
    LimboOne(t.info, u.info, id, limbo);
  }

  lemma FlipCounts(info: Infos, id: nat, limbo: set<nat>)
    requires id in info && !info[id].inTried && id in limbo
    ensures var info' := info[id := info[id].(inTried := true)];
            Untried(info', limbo - {id}) == Untried(info, limbo) && TriedSet(info') == TriedSet(info) + {id}
  {
  }

  lemma UnflipCounts(info: Infos, id: nat, limbo: set<nat>)
    requires id in info && info[id].inTried && id !in limbo
    ensures var info' := info[id := info[id].(inTried := false)];
            && Untried(info', limbo + {id}) == Untried(info, limbo) && TriedSet(info') == TriedSet(info) - {id}
            && id in TriedSet(info)
  {
  }

  lemma FlipEntries(info: Infos, id: nat, flag: bool)
    requires id in info
    ensures SameEntries(info, info[id := info[id].(inTried := flag)])
  {
  }

  lemma UntryPlaced(h: Oracle, t: Tables, s: Slot, limbo: set<nat>)
    requires TriedPlaced(h, t.info, t.triedIds) && NewPlaced(h, t.info, t.newIds, limbo)
    requires s in t.triedIds && t.triedIds[s] in t.info
    ensures var u := UntryT(t, s);
            TriedPlaced(h, u.info, u.triedIds) && NewPlaced(h, u.info, u.newIds, limbo + {t.triedIds[s]})
  {
  }

  lemma UntryOccupants(t: Tables, s: Slot)
    requires s in t.triedIds && t.triedIds[s] in t.info
    ensures var u := UntryT(t, s); Occupants(u.info, u.triedIds) == Occupants(t.info, t.triedIds) - {s}
  {
    var u := UntryT(t, s);
    FlipEntries(t.info, t.triedIds[s], false);
    SameBook(t.info, u.info, t.addrs, u.triedIds);
    hide SameEntries;
    assert Occupants(t.info, t.triedIds - {s}) == Occupants(t.info, t.triedIds) - {s};
  }

  lemma UntryRefs(t: Tables, s: Slot, limbo: set<nat>)
    requires RefCounted(t.info, t.newIds, limbo) && s in t.triedIds && t.triedIds[s] in t.info
    ensures RefCounted(UntryT(t, s).info, t.newIds, limbo + {t.triedIds[s]})
  {
  }

  lemma TriedAt(h: Oracle, info: Infos, newIds: map<Slot, nat>, triedIds: map<Slot, nat>, limbo: set<nat>, s: Slot)
    requires TriedPlaced(h, info, triedIds) && NewPlaced(h, info, newIds, limbo)
    requires RefCounted(info, newIds, limbo) && s in triedIds
    ensures triedIds[s] in info && info[triedIds[s]].inTried && triedIds[s] !in limbo
    ensures info[triedIds[s]].refCount == 0 && s == TriedSlot(h, info[triedIds[s]].e.svc)
  {
    assert IdRefs(newIds, triedIds[s]) == {};
  }

  /** Taking an id out of the tried table puts it into limbo. */
  lemma UntryKeeps(h: Oracle, t: Tables, s: Slot, limbo: set<nat>, ahead: int)
    requires Inv(h, t, limbo, ahead) && s in t.triedIds
    ensures var id := t.triedIds[s];
            && id in t.info && id !in limbo && t.info[id].refCount == 0 && t.info[id].inTried
            && Inv(h, UntryT(t, s), limbo + {id}, ahead)
            && View(UntryT(t, s)) == View(t).(triedTab := View(t).triedTab - {s})
  {
    hide Indexed, Ordered, RefCounted, TriedPlaced, NewPlaced, Entries, Occupants, SameEntries, Untried, TriedSet;
    var id := t.triedIds[s];
    TriedAt(h, t.info, t.newIds, t.triedIds, limbo, s);
    var u := UntryT(t, s);
    UntryPlaced(h, t, s, limbo);
    UntryOccupants(t, s);
    UntryRefs(t, s, limbo);
    FlipEntries(t.info, id, false);
    UnflipCounts(t.info, id, limbo);
    SameOrdered(t.info, u.info, t.order);
    SameIndexed(t.nextId, t.info, u.info, t.addrs);
    SameBook(t.info, u.info, t.addrs, t.newIds);
  }

  lemma TryPlaced(h: Oracle, t: Tables, s: Slot, id: nat, limbo: set<nat>)
    requires TriedPlaced(h, t.info, t.triedIds) && NewPlaced(h, t.info, t.newIds, limbo)
    requires id in limbo && id in t.info && s !in t.triedIds && s == TriedSlot(h, t.info[id].e.svc)
    ensures var u := TryT(t, s, id);
            TriedPlaced(h, u.info, u.triedIds) && NewPlaced(h, u.info, u.newIds, limbo - {id})
  {
  }

  lemma TryOccupants(t: Tables, s: Slot, id: nat)
    requires id in t.info && s !in t.triedIds
    ensures var u := TryT(t, s, id);
            Occupants(u.info, u.triedIds) == Occupants(t.info, t.triedIds)[s := t.info[id].e.svc.ip]
  {
  }

  lemma TryRefs(t: Tables, s: Slot, id: nat, limbo: set<nat>)
    requires RefCounted(t.info, t.newIds, limbo) && id in limbo && id in t.info
    ensures RefCounted(TryT(t, s, id).info, t.newIds, limbo - {id})
  {
  }

  /** Putting an id out of limbo into its own, free tried slot. */
  lemma TryKeeps(h: Oracle, t: Tables, s: Slot, id: nat, limbo: set<nat>, ahead: int)
    requires Inv(h, t, limbo, ahead) && id in limbo && id in t.info
    requires s !in t.triedIds && s == TriedSlot(h, t.info[id].e.svc)
    ensures var u := TryT(t, s, id);
            && Inv(h, u, limbo - {id}, ahead)
            && View(u) == View(t).(triedTab := View(t).triedTab[s := t.info[id].e.svc.ip])
  {
    hide Indexed, Ordered, RefCounted, TriedPlaced, NewPlaced, Entries, Occupants, SameEntries, Untried;
    LimboUntried(t.info, t.newIds, limbo, id);
    var u := TryT(t, s, id);
    TryPlaced(h, t, s, id, limbo);
    TryOccupants(t, s, id);
    TryRefs(t, s, id, limbo);
    FlipEntries(t.info, id, true);
    FlipCounts(t.info, id, limbo);
    SameOrdered(t.info, u.info, t.order);
    SameIndexed(t.nextId, t.info, u.info, t.addrs);
    SameBook(t.info, u.info, t.addrs, t.newIds);
  }

  // ---------- facts that tie the indexes to the book ----------

  lemma EntryAt(t: Tables, id: nat)
    requires Indexed(t.nextId, t.info, t.addrs) && id in t.info
    ensures var a := t.info[id].e.svc.ip; a in View(t).entries && View(t).entries[a] == t.info[id].e
  {
  }

  lemma TriedAgree(h: Oracle, t: Tables, id: nat)
    requires Indexed(t.nextId, t.info, t.addrs) && TriedPlaced(h, t.info, t.triedIds) && id in t.info
    ensures IsTried(View(t), t.info[id].e.svc.ip) <==> t.info[id].inTried
  {
    var a := t.info[id].e.svc.ip;
    var b := View(t);
    if t.info[id].inTried {
      var s := TriedSlot(h, t.info[id].e.svc);
      assert s in b.triedTab && b.triedTab[s] == a;
    }
    if IsTried(b, a) {
      var s :| s in b.triedTab && b.triedTab[s] == a;
      assert t.triedIds[s] in t.info;
    }
  }

  lemma Recount(h: Oracle, t: Tables, k: int, limbo: set<nat>, ahead: int)
    requires Inv(h, t, limbo, ahead)
    ensures Inv(h, t.(nNew := t.nNew + k), limbo, ahead + k) && View(t.(nNew := t.nNew + k)) == View(t)
  {
    hide Indexed, Ordered, TriedPlaced, NewPlaced, RefCounted, Untried, TriedSet;
  }

  lemma InvParts(h: Oracle, t: Tables, limbo: set<nat>, ahead: int)
    requires Inv(h, t, limbo, ahead)
    ensures Indexed(t.nextId, t.info, t.addrs) && Ordered(t.info, t.order)
    ensures TriedPlaced(h, t.info, t.triedIds) && NewPlaced(h, t.info, t.newIds, limbo)
    ensures RefCounted(t.info, t.newIds, limbo)
  {
    hide Indexed, Ordered, TriedPlaced, NewPlaced, RefCounted, Counted;
  }

  // ---------- scanning the new buckets ----------

  /** The slots of `id` in buckets below `n`. */
  function Early(table: map<Slot, nat>, id: nat, n: int): set<Slot> {
    set s | s in table && table[s] == id && s.bucket < n
  }

  /** In each bucket an id can only sit at the one position that its hash prescribes. */
  lemma EarlyStep(h: Oracle, info: Infos, newIds: map<Slot, nat>, id: nat, n: int)
    requires NewPlaced(h, info, newIds, {}) && id in info
    ensures var cell := Slot(n, BucketPosition(h, true, n, info[id].e.svc));
            && cell !in Early(newIds, id, n)
            && Early(newIds, id, n + 1) ==
               if cell in newIds && newIds[cell] == id then Early(newIds, id, n) + {cell} else Early(newIds, id, n)
  {
  }

  lemma EarlyEnds(h: Oracle, info: Infos, newIds: map<Slot, nat>, id: nat)
    requires NewPlaced(h, info, newIds, {}) && id in info
    ensures Early(newIds, id, 0) == {} && Early(newIds, id, NEW_BUCKET_COUNT) == IdRefs(newIds, id)
  {
  }

  lemma EarlyRest(newIds: map<Slot, nat>, id: nat, n: int, cell: Slot)
    requires cell in newIds && newIds[cell] == id && cell !in Early(newIds, id, n)
    ensures var rest := newIds - Early(newIds, id, n);
            && cell in rest
            && rest - {cell} == newIds - (Early(newIds, id, n) + {cell})
            && |IdRefs(rest - {cell}, id)| == |IdRefs(rest, id)| - 1
  {
    var rest := newIds - Early(newIds, id, n);
    assert IdRefs(rest - {cell}, id) == IdRefs(rest, id) - {cell};
  }

  /** An untried id has some bucket in which it sits at its own position. */
  lemma SomeBucket(h: Oracle, t: Tables, id: nat) returns (b: int)
    requires Sound(h, t) && id in t.info && !t.info[id].inTried
    ensures 0 <= b < NEW_BUCKET_COUNT
    ensures var s := Slot(b, BucketPosition(h, true, b, t.info[id].e.svc)); s in t.newIds && t.newIds[s] == id
  {
    hide Indexed, Ordered, TriedPlaced, Counted;
    assert IdRefs(t.newIds, id) != {};
    var s :| s in IdRefs(t.newIds, id);
    b := s.bucket;
  }

  lemma RefCountAt(info: Infos, newIds: map<Slot, nat>, limbo: set<nat>, id: nat)
    requires RefCounted(info, newIds, limbo) && id in info
    ensures info[id].refCount == |IdRefs(newIds, id)|
  {
  }

  lemma NoRefsLeft(newIds: map<Slot, nat>, id: nat)
    ensures IdRefs(newIds - IdRefs(newIds, id), id) == {}
  {
  }

  lemma SubAt(info': Infos, info: Infos, id: nat)
    requires SubInfos(info', info) && id in info'
    ensures id in info && info'[id].e == info[id].e && info'[id].inTried == info[id].inTried
  {
  }

  lemma EraseAt(t: Tables, id: nat)
    requires id in t.info
    ensures var u := EraseT(t, id);
            && u.triedIds == t.triedIds && u.info.Keys == t.info.Keys
            && forall j :: j in t.info ==> u.info[j].e == t.info[j].e
  {
  }

  /** The occupant of a tried slot is known to the book under its own address. */
  lemma TriedEntryAt(h: Oracle, t: Tables, s: Slot)
    requires Indexed(t.nextId, t.info, t.addrs) && TriedPlaced(h, t.info, t.triedIds) && s in t.triedIds
    ensures t.triedIds[s] in t.info
    ensures var e := t.info[t.triedIds[s]].e;
            && s in View(t).triedTab && View(t).triedTab[s] == e.svc.ip
            && e.svc.ip in View(t).entries && View(t).entries[e.svc.ip] == e
  {
  }

  lemma PromoteFree(h: Oracle, t: Tables, a: NetAddr, s: Slot)
    requires a in View(t).entries && s == TriedSlot(h, View(t).entries[a].svc) && s !in t.triedIds
    ensures var b := View(t);
            Promote(h, b, a) == b.(newTab := b.newTab - Refs(b, a), triedTab := b.triedTab[s := a])
  {
  }

  /** Clearing a slot that `id` does not occupy leaves the info of `id` as it was, up to its position. */
  lemma ClearNewAt(h: Oracle, t: Tables, s: Slot, id: nat, limbo: set<nat>, ahead: int)
    requires Inv(h, t, limbo, ahead) && Known(t.info, t.newIds) && id in t.info && !t.info[id].inTried
    requires s in t.newIds ==> t.newIds[s] != id
    ensures var u := ClearNewT(t, s);
            && id in u.info && u.info[id].e == t.info[id].e && !u.info[id].inTried
            && u.info[id].refCount == t.info[id].refCount
  {
    hide Inv, Ordered, View, Known, IdRefs, SwapRandomT;
    InvOrdered(h, t, limbo, ahead);
    if s in t.newIds {
      UnrefKeeps(h, t, s, limbo, ahead);
      var u, x := UnrefT(t, s), t.newIds[s];
      if u.info[x].refCount == 0 {
        InvOrdered(h, u, limbo + {x}, ahead + 1);
        SwapToLast(u, x);
        SwapSame(u, u.info[x].randomPos, |u.order| - 1);
      }
    }
  }

  lemma UntriedCount(h: Oracle, t: Tables, limbo: set<nat>, ahead: int, id: nat)
    requires Inv(h, t, limbo, ahead) && id in t.info && !t.info[id].inTried
    ensures if id in limbo then t.info[id].refCount == 0 else 1 <= t.info[id].refCount <= NEW_BUCKETS_PER_ADDRESS
  {
    hide Indexed, Ordered, TriedPlaced, Counted;
    if id in limbo {
      assert IdRefs(t.newIds, id) == {};
    }
  }

  /** The occupant of a new slot is known to the book, with as many slots as its reference count. */
  lemma NewEntryAt(h: Oracle, t: Tables, s: Slot, limbo: set<nat>, ahead: int)
    requires Inv(h, t, limbo, ahead)
    ensures s in View(t).newTab <==> s in t.newIds
    ensures s in t.newIds ==> t.newIds[s] in t.info
    ensures s in t.newIds ==>
              var i := t.info[t.newIds[s]];
              var a := i.e.svc.ip;
              && View(t).newTab[s] == a && a in View(t).entries && View(t).entries[a] == i.e
              && |Refs(View(t), a)| == i.refCount
  {
    hide Indexed, Ordered, TriedPlaced, NewPlaced, RefCounted, Counted, Refs, Entries, IdRefs, Known, View;
    InvKnown(h, t, limbo, ahead);
    OccupantAt(t, s);
    if s in t.newIds {
      PlacedAt(h, t.info, t.newIds, limbo, s);
      EntryAt(t, t.newIds[s]);
      RefsAgree(t, t.newIds[s]);
      RefCountAt(t.info, t.newIds, limbo, t.newIds[s]);
    }
  }

  lemma NewEntryIs(h: Oracle, t: Tables, s: Slot, id: nat, limbo: set<nat>, ahead: int)
    requires Inv(h, t, limbo, ahead) && id in t.info
    ensures s in t.newIds ==> (View(t).newTab[s] == t.info[id].e.svc.ip <==> t.newIds[s] == id)
  {
    hide Ordered, TriedPlaced, RefCounted, Counted;
  }

  lemma KnownAddr(h: Oracle, t: Tables, a: NetAddr)
    requires Sound(h, t)
    ensures a in View(t).entries <==> a in t.addrs
  {
    hide Ordered, TriedPlaced, NewPlaced, RefCounted, Counted;
  }
}
