/**
 Driving an address manager through any sequence of operations, and its own consistency
 check, which finds nothing to complain about except times that are out of order.
 */
module AddrCheck {
  import opened AddrBook
  import opened AddrTables
  import opened AddrMan
  import Runs = AddrRuns

  /** Any run on a new manager is the run on the book. */
  method Drive(h: Oracle, ops: seq<Runs.Op>) returns (m: AddrMan)
    ensures m.Valid() && m.h == h
    ensures Runs.Session(m.Contents(), m.nLastGood) == Runs.Run(h, Runs.EMPTY, ops)
    ensures Consistent(h, m.Contents())
    ensures (forall k :: 0 <= k < |ops| ==> Runs.Positive(ops[k])) ==> Runs.TimesOk(m.Contents())
  {
    hide Consistent, Sound, View, TableOf, Cells, Runs.TimesOk, Good, Add;
    m := new AddrMan(h);
    for n := 0 to |ops|
      invariant m.Valid() && m.h == h && fresh(m) && fresh(m.vvNew) && fresh(m.vvTried)
      invariant Runs.Session(m.Contents(), m.nLastGood) == Runs.Run(h, Runs.EMPTY, ops[..n])
    {
      assert ops[..n + 1][..n] == ops[..n];
      match ops[n] {
        case AddOp(addr, source, penalty, now, later, roll) =>
          var _ := m.Add(addr, source, penalty, now, later, roll);
        case GoodOp(svc, time, roll) =>
          m.Good(svc, time, roll);
        case AttemptOp(svc, fCount, time) =>
          m.Attempt(svc, fCount, time);
        case ConnectedOp(svc, time) =>
          m.Connected(svc, time);
        case ServicesOp(svc, services) =>
          m.SetServices(svc, services);
        case GetAddrOp(now, rolls) =>
          var _ := m.GetAddr(now, rolls);
      }
    }
    assert ops[..|ops|] == ops;
    Runs.EveryRun(h, ops);
  }

  // ---------- the scan over the cells of a table ----------

  /** The occupied slots that a scan has passed when it stands before cell (n, i). */
  ghost function Seen(table: map<Slot, nat>, n: int, i: int): set<Slot> {
    set s | s in table && (s.bucket < n || (s.bucket == n && s.pos < i))
  }

  lemma SeenStep(table: map<Slot, nat>, n: int, i: int)
    ensures Slot(n, i) !in Seen(table, n, i)
    ensures Seen(table, n, i + 1) ==
            if Slot(n, i) in table then Seen(table, n, i) + {Slot(n, i)} else Seen(table, n, i)
  {
  }

  lemma SeenRow(table: map<Slot, nat>, n: int)
    requires forall s :: s in table ==> 0 <= s.pos < BUCKET_SIZE
    ensures Seen(table, n, BUCKET_SIZE) == Seen(table, n + 1, 0)
  {
  }

  ghost function TriedLeft(h: Oracle, info: Infos, seen: set<Slot>): set<nat> {
    set id | id in info && info[id].inTried && TriedSlot(h, info[id].e.svc) !in seen
  }

  lemma TriedLeftStep(h: Oracle, info: Infos, triedIds: map<Slot, nat>, seen: set<Slot>, s: Slot)
    requires TriedPlaced(h, info, triedIds) && s in triedIds && s !in seen
    ensures triedIds[s] in TriedLeft(h, info, seen)
    ensures TriedLeft(h, info, seen + {s}) == TriedLeft(h, info, seen) - {triedIds[s]}
  {
  }

  /** The ids that still have slots to come, with the number of those. */
  ghost predicate NewLeft(info: Infos, newIds: map<Slot, nat>, seen: set<Slot>, m: map<nat, int>) {
    && (forall id :: id in m ==> id in info && !info[id].inTried && m[id] == |IdRefs(newIds, id) - seen| && m[id] > 0)
    && (forall id :: id in info && !info[id].inTried && IdRefs(newIds, id) - seen != {} ==> id in m)
  }

  function Decrement(m: map<nat, int>, id: nat): map<nat, int>
    requires id in m
  {
    if m[id] - 1 == 0 then m - {id} else m[id := m[id] - 1]
  }

  lemma NewLeftStep(info: Infos, newIds: map<Slot, nat>, seen: set<Slot>, m: map<nat, int>, s: Slot)
    requires NewLeft(info, newIds, seen, m) && s in newIds && s !in seen
    requires newIds[s] in info && !info[newIds[s]].inTried
    ensures newIds[s] in m && NewLeft(info, newIds, seen + {s}, Decrement(m, newIds[s]))
  {
    var id := newIds[s];
    assert s in IdRefs(newIds, id) - seen;
    assert IdRefs(newIds, id) - (seen + {s}) == IdRefs(newIds, id) - seen - {s};
    forall j | j in info && j != id
      ensures IdRefs(newIds, j) - (seen + {s}) == IdRefs(newIds, j) - seen
    {
      assert s !in IdRefs(newIds, j);
    }
    if m[id] - 1 == 0 {
      assert |IdRefs(newIds, id) - (seen + {s})| == 0;
    }
  }

  // ---------- the check ----------

  predicate InfoTimes(i: Info) {
    i.e.lastTry >= 0 && i.e.lastSuccess >= 0 && (i.inTried ==> i.e.lastSuccess != 0)
  }

  lemma TimesAgree(h: Oracle, t: Tables)
    requires Sound(h, t)
    ensures Runs.TimesOk(View(t)) <==> forall id :: id in t.info ==> InfoTimes(t.info[id])
  {
    hide *;
    var b := View(t);
    forall id | id in t.info
      ensures Runs.TimesOk(b) ==> InfoTimes(t.info[id])
    {
      InfoEntry(h, t, id);
      TimesOfInfo(b, t.info[id]);
    }
    if forall id :: id in t.info ==> InfoTimes(t.info[id]) {
      forall a | a in b.entries
        ensures b.entries[a].lastTry >= 0 && b.entries[a].lastSuccess >= 0 && (IsTried(b, a) ==> b.entries[a].lastSuccess != 0)
      {
        var id := EntryInfo(h, t, a);
        InfoEntry(h, t, id);
        InfoTimesIs(t.info[id]);
      }
      TimesFrom(b);
    }
  }

  lemma InfoEntry(h: Oracle, t: Tables, id: nat)
    requires Sound(h, t) && id in t.info
    ensures var a := t.info[id].e.svc.ip;
            a in View(t).entries && View(t).entries[a] == t.info[id].e && (IsTried(View(t), a) <==> t.info[id].inTried)
  {
    hide Ordered, NewPlaced, RefCounted, Counted, IsTried, TriedPlaced, Indexed, View;
    EntryAt(t, id);
    TriedAgree(h, t, id);
  }

  lemma EntryInfo(h: Oracle, t: Tables, a: NetAddr) returns (id: nat)
    requires Sound(h, t) && a in View(t).entries
    ensures id in t.info && t.info[id].e.svc.ip == a
  {
    hide Ordered, NewPlaced, RefCounted, Counted, IsTried, TriedPlaced;
    KnownAddr(h, t, a);
    id := t.addrs[a];
  }

  lemma TimesOfInfo(b: Book, i: Info)
    requires i.e.svc.ip in b.entries && b.entries[i.e.svc.ip] == i.e && (IsTried(b, i.e.svc.ip) <==> i.inTried)
    ensures Runs.TimesOk(b) ==> InfoTimes(i)
  {
    hide IsTried;
  }

  lemma InfoTimesIs(i: Info)
    requires InfoTimes(i)
    ensures i.e.lastTry >= 0 && i.e.lastSuccess >= 0 && (i.inTried ==> i.e.lastSuccess != 0)
  {
  }

  lemma TimesFrom(b: Book)
    requires forall a :: a in b.entries ==>
               b.entries[a].lastTry >= 0 && b.entries[a].lastSuccess >= 0 && (IsTried(b, a) ==> b.entries[a].lastSuccess != 0)
    ensures Runs.TimesOk(b)
  {
    hide IsTried;
  }

  /** The facts about one info that the check looks at. */
  lemma InfoFacts(h: Oracle, t: Tables, id: nat)
    requires Sound(h, t) && id in t.info
    ensures var i := t.info[id];
            && (i.inTried ==> i.refCount == 0)
            && (!i.inTried ==> 0 < i.refCount <= NEW_BUCKETS_PER_ADDRESS)
            && i.refCount == |IdRefs(t.newIds, id)|
            && i.e.svc.ip in t.addrs && t.addrs[i.e.svc.ip] == id
            && 0 <= i.randomPos < |t.order| && t.order[i.randomPos] == id
  {
    hide Counted;
    if t.info[id].inTried {
      assert IdRefs(t.newIds, id) == {};
    }
  }

  ghost predicate InfosSeen(info: Infos, newIds: map<Slot, nat>, todo: set<nat>, setTried: set<nat>, mapNew: map<nat, int>) {
    && (forall id :: id in setTried <==> id in info && id !in todo && info[id].inTried)
    && (forall id :: id in mapNew <==> id in info && id !in todo && !info[id].inTried)
    && (forall id :: id in mapNew ==> mapNew[id] == |IdRefs(newIds, id)| && mapNew[id] > 0)
    && (forall id :: id in info && id !in todo ==> InfoTimes(info[id]))
  }

  lemma InfosSeenStep(info: Infos, newIds: map<Slot, nat>, todo: set<nat>, setTried: set<nat>, mapNew: map<nat, int>, id: nat)
    requires InfosSeen(info, newIds, todo, setTried, mapNew) && id in todo && id in info && InfoTimes(info[id])
    requires info[id].refCount == |IdRefs(newIds, id)| && (!info[id].inTried ==> info[id].refCount > 0)
    ensures InfosSeen(info, newIds, todo - {id},
                      if info[id].inTried then setTried + {id} else setTried,
                      if info[id].inTried then mapNew else mapNew[id := info[id].refCount])
  {
  }

  lemma NoneSeen(info: Infos, newIds: map<Slot, nat>)
    ensures InfosSeen(info, newIds, info.Keys, {}, map[])
  {
  }

  lemma AllSeen(info: Infos, newIds: map<Slot, nat>, setTried: set<nat>, mapNew: map<nat, int>)
    requires InfosSeen(info, newIds, {}, setTried, mapNew)
    ensures forall id :: id in info ==> InfoTimes(info[id])
  {
  }

  method CheckInfos(m: AddrMan) returns (err: int, setTried: set<nat>, mapNew: map<nat, int>)
    requires m.Valid()
    ensures err == 0 <==> Runs.TimesOk(m.Contents())
    ensures err == 0 ==> InfosSeen(m.mapInfo, TableOf(m.vvNew), {}, setTried, mapNew)
    ensures err != 0 ==> err in {-1, -6, -8}
  {
    hide Sound, View, TableOf, Cells, Runs.TimesOk, InfosSeen, IdRefs;
    ghost var t := m.Snap();
    TimesAgree(m.h, t);
    err, setTried, mapNew := 0, {}, map[];
    var todo := m.mapInfo.Keys;
    assert InfosSeen(t.info, t.newIds, todo, {}, map[]) by { NoneSeen(t.info, t.newIds); }
    while todo != {}
      invariant todo <= m.mapInfo.Keys && InfosSeen(t.info, t.newIds, todo, setTried, mapNew)
    {
      var n: nat :| n in todo;
      var info := m.mapInfo[n];
      InfoFacts(m.h, t, n);
      var setTried', mapNew' := setTried, mapNew;
      if info.inTried {
        if info.e.lastSuccess == 0 { return -1, setTried, mapNew; }
        if info.refCount != 0 { return -2, setTried, mapNew; }
        setTried' := setTried + {n};
      } else {
        if info.refCount < 0 || info.refCount > NEW_BUCKETS_PER_ADDRESS { return -3, setTried, mapNew; }
        if info.refCount == 0 { return -4, setTried, mapNew; }
        mapNew' := mapNew[n := info.refCount];
      }
      if m.mapAddr[info.e.svc.ip] != n { return -5, setTried, mapNew; }
      if info.randomPos < 0 || info.randomPos >= |m.vRandom| || m.vRandom[info.randomPos] != n { return -14, setTried, mapNew; }
      if info.e.lastTry < 0 { return -6, setTried, mapNew; }
      if info.e.lastSuccess < 0 { return -8, setTried, mapNew; }
      InfosSeenStep(t.info, t.newIds, todo, setTried, mapNew, n);
      todo, setTried, mapNew := todo - {n}, setTried', mapNew';
    }
    AllSeen(t.info, t.newIds, setTried, mapNew);
  }

  lemma CellsInRange(a: array2<int>)
    requires a.Length1 == BUCKET_SIZE
    ensures forall s :: s in TableOf(a) ==> 0 <= s.bucket < a.Length0 && 0 <= s.pos < BUCKET_SIZE
    ensures Seen(TableOf(a), 0, 0) == {}
    ensures forall s :: s in TableOf(a) ==> s in Seen(TableOf(a), a.Length0, 0)
  {
  }

  /** Each tried id is found once, in its own slot. */
  method CheckTried(m: AddrMan, setTried: set<nat>) returns (err: int, left: set<nat>)
    requires m.Valid() && setTried == TriedLeft(m.h, m.mapInfo, {})
    ensures err == 0 && left == {}
  {
    hide Inv, View, TableOf, Cells, Seen, TriedLeft, TriedPlaced, Indexed, Ordered, NewPlaced, RefCounted;
    ghost var t := m.Snap();
    InvParts(m.h, t, {}, 0);
    CellsInRange(m.vvTried);
    err, left := 0, setTried;
    for n := 0 to TRIED_BUCKET_COUNT
      invariant left == TriedLeft(m.h, t.info, Seen(t.triedIds, n, 0))
    {
      for i := 0 to BUCKET_SIZE
        invariant left == TriedLeft(m.h, t.info, Seen(t.triedIds, n, i))
      {
        ReadCell(m.vvTried, n, i);
        SeenStep(t.triedIds, n, i);
        var id := m.vvTried[n, i];
        if id != -1 {
          TriedEntryAt(m.h, t, Slot(n, i));
          TriedLeftStep(m.h, t.info, t.triedIds, Seen(t.triedIds, n, i), Slot(n, i));
          TriedSlotAt(m.h, t.info, t.triedIds, Slot(n, i));
          if id !in left { return -11, left; }
          if TriedBucket(m.h, m.mapInfo[id].e.svc) != n { return -17, left; }
          if BucketPosition(m.h, false, n, m.mapInfo[id].e.svc) != i { return -18, left; }
          left := left - {id};
        }
      }
      SeenRow(t.triedIds, n);
    }
    NoTriedLeft(m.h, t.info, t.triedIds, Seen(t.triedIds, TRIED_BUCKET_COUNT, 0));
  }

  lemma TriedSlotAt(h: Oracle, info: Infos, triedIds: map<Slot, nat>, s: Slot)
    requires TriedPlaced(h, info, triedIds) && s in triedIds
    ensures triedIds[s] in info && s == TriedSlot(h, info[triedIds[s]].e.svc)
  {
  }

  lemma NoTriedLeft(h: Oracle, info: Infos, triedIds: map<Slot, nat>, seen: set<Slot>)
    requires TriedPlaced(h, info, triedIds) && forall s :: s in triedIds ==> s in seen
    ensures TriedLeft(h, info, seen) == {}
  {
  }

  /** Each untried id is found as often as its reference count says. */
  method CheckNew(m: AddrMan, mapNew: map<nat, int>) returns (err: int, left: map<nat, int>)
    requires m.Valid() && NewLeft(m.mapInfo, TableOf(m.vvNew), {}, mapNew)
    ensures err == 0 && left == map[]
  {
    hide Inv, View, TableOf, Cells, Seen, NewLeft, TriedPlaced, Indexed, Ordered, NewPlaced, RefCounted, IdRefs;
    ghost var t := m.Snap();
    InvParts(m.h, t, {}, 0);
    CellsInRange(m.vvNew);
    err, left := 0, mapNew;
    for n := 0 to NEW_BUCKET_COUNT
      invariant NewLeft(t.info, t.newIds, Seen(t.newIds, n, 0), left)
    {
      for i := 0 to BUCKET_SIZE
        invariant NewLeft(t.info, t.newIds, Seen(t.newIds, n, i), left)
      {
        ReadCell(m.vvNew, n, i);
        SeenStep(t.newIds, n, i);
        var id := m.vvNew[n, i];
        if id != -1 {
          NewSlotAt(m.h, t.info, t.newIds, Slot(n, i));
          NewLeftStep(t.info, t.newIds, Seen(t.newIds, n, i), left, Slot(n, i));
          if id !in left { return -12, left; }
          if BucketPosition(m.h, true, n, m.mapInfo[id].e.svc) != i { return -19, left; }
          left := Decrement(left, id);
        }
      }
      SeenRow(t.newIds, n);
    }
    NoNewLeft(t.info, t.newIds, Seen(t.newIds, NEW_BUCKET_COUNT, 0), left);
  }

  lemma NewSlotAt(h: Oracle, info: Infos, newIds: map<Slot, nat>, s: Slot)
    requires NewPlaced(h, info, newIds, {}) && s in newIds
    ensures newIds[s] in info && !info[newIds[s]].inTried && s.pos == BucketPosition(h, true, s.bucket, info[newIds[s]].e.svc)
  {
  }

  lemma NoNewLeft(info: Infos, newIds: map<Slot, nat>, seen: set<Slot>, m: map<nat, int>)
    requires NewLeft(info, newIds, seen, m) && forall s :: s in newIds ==> s in seen
    ensures m == map[]
  {
    forall id: nat
      ensures IdRefs(newIds, id) - seen == {}
    {
    }
  }

  lemma StartLeft(h: Oracle, t: Tables, setTried: set<nat>, mapNew: map<nat, int>)
    requires Sound(h, t) && InfosSeen(t.info, t.newIds, {}, setTried, mapNew)
    ensures setTried == TriedLeft(h, t.info, {}) && NewLeft(t.info, t.newIds, {}, mapNew)
    ensures |setTried| == t.nTried && |mapNew| == t.nNew
  {
    hide Indexed, Ordered, TriedPlaced, NewPlaced;
    StartSets(h, t.info, t.newIds, setTried, mapNew);
    StartCounts(t, setTried, mapNew);
    hide RefCounted, InfosSeen, TriedLeft, NewLeft;
  }

  lemma StartCounts(t: Tables, setTried: set<nat>, mapNew: map<nat, int>)
    requires Counted(t.info, t.nNew, t.nTried, {}, 0) && InfosSeen(t.info, t.newIds, {}, setTried, mapNew)
    ensures |setTried| == t.nTried && |mapNew| == t.nNew
  {
    hide IdRefs;
    assert forall id :: id in setTried <==> id in TriedSet(t.info);
    assert forall id :: id in mapNew.Keys <==> id in Untried(t.info, {});
    assert mapNew.Keys == Untried(t.info, {});
    assert |mapNew| == |mapNew.Keys|;
    assert setTried == TriedSet(t.info);
  }

  lemma StartSets(h: Oracle, info: Infos, newIds: map<Slot, nat>, setTried: set<nat>, mapNew: map<nat, int>)
    requires InfosSeen(info, newIds, {}, setTried, mapNew)
    ensures setTried == TriedLeft(h, info, {}) && NewLeft(info, newIds, {}, mapNew)
  {
    forall id: nat
      ensures IdRefs(newIds, id) - {} == IdRefs(newIds, id)
    {
    }
    assert forall id :: id in setTried <==> id in TriedLeft(h, info, {});
  }

  lemma OrderCount(h: Oracle, t: Tables)
    requires Sound(h, t)
    ensures |t.order| == t.nTried + t.nNew
  {
    hide Indexed, TriedPlaced, NewPlaced, RefCounted;
    IdsCount(t.order, t.info.Keys);
    assert t.info.Keys == TriedSet(t.info) + Untried(t.info, {});
  }

  lemma {:induction false} IdsCount(order: seq<nat>, ids: set<nat>)
    requires forall j, k :: 0 <= j < k < |order| ==> order[j] != order[k]
    requires forall id :: id in ids <==> id in order
    ensures |ids| == |order|
  {
    if order == [] {
      assert ids == {};
    } else {
      var last := order[|order| - 1];
      assert order == order[..|order| - 1] + [last];
      IdsCount(order[..|order| - 1], ids - {last});
    }
  }

  /**
   The manager's own consistency check. On every reachable manager it finds no fault in the
   indexes; it reports an error exactly when some recorded time is out of order or the key is null.
   */
  method Check(m: AddrMan, nullKey: bool) returns (err: int)
    requires m.Valid()
    ensures err in {-1, -6, -8} <==> !Runs.TimesOk(m.Contents())
    ensures err == -16 <==> Runs.TimesOk(m.Contents()) && nullKey
    ensures err == 0 <==> Runs.TimesOk(m.Contents()) && !nullKey
  {
    hide Sound, View, TableOf, Cells, Runs.TimesOk, InfosSeen, NewLeft, TriedLeft;
    ghost var t := m.Snap();
    OrderCount(m.h, t);
    if |m.vRandom| != m.nTried + m.nNew { return -7; }
    var setTried, mapNew;
    err, setTried, mapNew := CheckInfos(m);
    if err != 0 { return; }
    StartLeft(m.h, t, setTried, mapNew);
    if |setTried| != m.nTried { return -9; }
    if |mapNew| != m.nNew { return -10; }
    err, setTried := CheckTried(m, setTried);
    if err != 0 { return; }
    err, mapNew := CheckNew(m, mapNew);
    if err != 0 { return; }
    if |setTried| != 0 { return -13; }
    if |mapNew| != 0 { return -15; }
    if nullKey { return -16; }
    return 0;
  }
}
