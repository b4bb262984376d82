/**
 Writing an address manager to disk and reading it back. Ids are not stored: reading numbers
 the new entries first and the tried entries after them, each kind in the order of the old
 ids. The tables read back are that renumbering, and stand for the same book up to the fields
 that live in memory only.
 */
module AddrDump {
  import opened Basics
  import opened AddrBook
  import opened AddrTables
  import opened AddrMan
  import AddrCheck

  /** The part of an entry that is stored. */
  datatype Disk = Disk(svc: Service, time: int, services: bv64, source: NetAddr, lastSuccess: int, attempts: int)

  /** A stored manager; the two counts are the lengths of the lists they announce. */
  datatype Dump = Dump(version: int, keySize: int, news: seq<Disk>, trieds: seq<Disk>, rows: seq<seq<int>>)

  function ToDisk(e: Entry): Disk { Disk(e.svc, e.time, e.services, e.source, e.lastSuccess, e.attempts) }

  function FromDisk(d: Disk): Entry { Entry(d.svc, d.time, d.services, d.source, 0, 0, d.lastSuccess, d.attempts) }

  /** What is left of an entry after a trip to disk. */
  function Forget(e: Entry): Entry { e.(lastTry := 0, lastCountAttempt := 0) }

  function ForgetBook(b: Book): Book {
    b.(entries := map a | a in b.entries :: Forget(b.entries[a]))
  }

  // ---------- numbering ----------

  predicate Stored(i: Info, tried: bool) {
    if tried then i.inTried else i.refCount != 0
  }

  /** The ids below `k` of one kind, in ascending order. */
  function Ids(info: Infos, k: nat, tried: bool): seq<nat> {
    if k == 0 then []
    else if k - 1 in info && Stored(info[k - 1], tried) then Ids(info, k - 1, tried) + [k - 1]
    else Ids(info, k - 1, tried)
  }

  lemma {:induction false} IdsAt(info: Infos, k: nat, tried: bool, j: nat)
    requires j < |Ids(info, k, tried)|
    ensures var id := Ids(info, k, tried)[j];
            id < k && id in info && Stored(info[id], tried) && |Ids(info, id, tried)| == j
  {
    if k - 1 in info && Stored(info[k - 1], tried) && j == |Ids(info, k - 1, tried)| {
      assert Ids(info, k, tried)[j] == k - 1;
    } else {
      IdsAt(info, k - 1, tried, j);
    }
  }

  lemma {:induction false} IdsHas(info: Infos, k: nat, tried: bool, id: nat)
    requires id < k && id in info && Stored(info[id], tried)
    ensures |Ids(info, id, tried)| < |Ids(info, k, tried)| && Ids(info, k, tried)[|Ids(info, id, tried)|] == id
  {
    if id < k - 1 {
      IdsHas(info, k - 1, tried, id);
    }
  }

  ghost function Count(t: Tables, tried: bool): nat { |Ids(t.info, t.nextId, tried)| }

  ghost function Total(t: Tables): nat { Count(t, false) + Count(t, true) }

  /** The new number of an id. */
  ghost function Rank(t: Tables, id: nat): nat
    requires id in t.info
  {
    if t.info[id].inTried then Count(t, false) + |Ids(t.info, id, true)| else |Ids(t.info, id, false)|
  }

  /** The old id behind a new number. */
  ghost function IdAt(t: Tables, i: nat): nat
    requires i < Total(t)
  {
    if i < Count(t, false) then Ids(t.info, t.nextId, false)[i] else Ids(t.info, t.nextId, true)[i - Count(t, false)]
  }

  /** `Rank` and `IdAt` are inverse to each other; new entries come before tried ones. */
  ghost predicate Ranked(t: Tables) {
    && (forall id :: id in t.info ==> Rank(t, id) < Total(t) && IdAt(t, Rank(t, id)) == id)
    && (forall i :: 0 <= i < Total(t) ==>
          IdAt(t, i) in t.info && Rank(t, IdAt(t, i)) == i && (t.info[IdAt(t, i)].inTried <==> i >= Count(t, false)))
  }

  lemma SoundRanked(h: Oracle, t: Tables)
    requires Sound(h, t)
    ensures Ranked(t)
  {
    hide Sound, Ids;
    forall id | id in t.info
      ensures id < t.nextId && Rank(t, id) < Total(t) && IdAt(t, Rank(t, id)) == id
    {
      AddrCheck.InfoFacts(h, t, id);
      IdBelow(h, t, id);
      IdsHas(t.info, t.nextId, t.info[id].inTried, id);
    }
    forall i | 0 <= i < Total(t)
      ensures IdAt(t, i) in t.info && Rank(t, IdAt(t, i)) == i
      ensures t.info[IdAt(t, i)].inTried <==> i >= Count(t, false)
    {
      var tried := i >= Count(t, false);
      IdsAt(t.info, t.nextId, tried, if tried then i - Count(t, false) else i);
      AddrCheck.InfoFacts(h, t, IdAt(t, i));
    }
  }

  lemma IdBelow(h: Oracle, t: Tables, id: nat)
    requires Sound(h, t) && id in t.info
    ensures id < t.nextId
  {
    hide Ordered, TriedPlaced, NewPlaced, RefCounted, Counted;
  }

  /** Among the entries of one kind the renumbering keeps the order. */
  lemma {:induction false} RankOrder(info: Infos, i: nat, j: nat, tried: bool)
    requires i < j && i in info && Stored(info[i], tried)
    ensures |Ids(info, i, tried)| < |Ids(info, j, tried)|
    decreases j
  {
    if i < j - 1 {
      RankOrder(info, i, j - 1, tried);
    }
  }

  // ---------- the tables that reading produces ----------

  ghost function Mirror(t: Tables, seen: set<Slot>, c: nat): Infos
    requires Ranked(t) && c <= Total(t)
  {
    map i: nat | 0 <= i < c ::
      Info(Forget(t.info[IdAt(t, i)].e), |IdRefs(t.newIds, IdAt(t, i)) * seen|, t.info[IdAt(t, i)].inTried, i)
  }

  /** The part of a table that mentions ids with numbers below `c`. */
  ghost function UpTo<K>(t: Tables, table: map<K, nat>, c: nat): map<K, nat>
    requires Known(t.info, table)
  {
    map k | k in table && Rank(t, table[k]) < c :: Rank(t, table[k])
  }

  ghost function Only(t: Tables, table: map<Slot, nat>, seen: set<Slot>): map<Slot, nat>
    requires Known(t.info, table)
  {
    map s | s in table && s in seen :: Rank(t, table[s])
  }

  ghost function Iota(n: nat): seq<nat> { seq(n, i => i) }

  ghost function Renumbered(t: Tables): Tables
    requires Ranked(t) && Known(t.info, t.addrs) && Known(t.info, t.newIds) && Known(t.info, t.triedIds)
  {
    var c := Total(t);
    Tables(c, Mirror(t, t.newIds.Keys, c), UpTo(t, t.addrs, c), Iota(c), Count(t, false), Count(t, true),
           Only(t, t.newIds, t.newIds.Keys), UpTo(t, t.triedIds, c))
  }

  lemma SoundKnown(h: Oracle, t: Tables)
    requires Sound(h, t)
    ensures Ranked(t) && Known(t.info, t.addrs) && Known(t.info, t.newIds) && Known(t.info, t.triedIds)
  {
    SoundRanked(h, t);
    hide Ordered, RefCounted, Counted;
  }

  /** The number of an old id, in every table that covers it. */
  lemma RankAt(t: Tables, seen: set<Slot>, id: nat)
    requires Ranked(t) && id in t.info
    ensures Rank(t, id) < Total(t) && IdAt(t, Rank(t, id)) == id
    ensures var info', i := Mirror(t, seen, Total(t)), t.info[id];
            Rank(t, id) in info'
            && info'[Rank(t, id)] == Info(Forget(i.e), |IdRefs(t.newIds, id) * seen|, i.inTried, Rank(t, id))
  {
    hide IdAt, Rank, Count, IdRefs;
  }

  /** The old id behind a number that the tables mention. */
  lemma NumberAt(t: Tables, seen: set<Slot>, i: nat)
    requires Ranked(t) && i in Mirror(t, seen, Total(t))
    ensures i < Total(t) && IdAt(t, i) in t.info && Rank(t, IdAt(t, i)) == i
    ensures t.info[IdAt(t, i)].inTried <==> i >= Count(t, false)
    ensures Mirror(t, seen, Total(t))[i] ==
            Info(Forget(t.info[IdAt(t, i)].e), |IdRefs(t.newIds, IdAt(t, i)) * seen|, t.info[IdAt(t, i)].inTried, i)
  {
    hide IdAt, Rank, Count, IdRefs;
  }

  lemma UpToAll<K>(t: Tables, table: map<K, nat>)
    requires Ranked(t) && Known(t.info, table)
    ensures var u := UpTo(t, table, Total(t));
            u.Keys == table.Keys && forall k :: k in table ==> u[k] == Rank(t, table[k])
  {
    hide IdAt, Rank, Count;
  }

  lemma RenumberedIndexed(t: Tables)
    requires Ranked(t) && Indexed(t.nextId, t.info, t.addrs) && Known(t.info, t.addrs)
    ensures var c := Total(t);
            Indexed(c, Mirror(t, t.newIds.Keys, c), UpTo(t, t.addrs, c))
  {
    hide IdAt, Rank, Count, Total, Ranked, Mirror, IdRefs, UpTo;
    var c := Total(t);
    var info', addrs' := Mirror(t, t.newIds.Keys, c), UpTo(t, t.addrs, c);
    UpToAll(t, t.addrs);
    forall i: nat | i in info'
      ensures 0 <= i < c && info'[i].e.svc.ip in addrs' && addrs'[info'[i].e.svc.ip] == i
    {
      NumberAt(t, t.newIds.Keys, i);
      assert t.addrs[t.info[IdAt(t, i)].e.svc.ip] == IdAt(t, i);
    }
    forall a | a in addrs'
      ensures addrs'[a] in info' && info'[addrs'[a]].e.svc.ip == a
    {
      RankAt(t, t.newIds.Keys, t.addrs[a]);
    }
  }

  lemma RenumberedTried(h: Oracle, t: Tables)
    requires Ranked(t) && TriedPlaced(h, t.info, t.triedIds) && Known(t.info, t.triedIds)
    ensures TriedPlaced(h, Mirror(t, t.newIds.Keys, Total(t)), UpTo(t, t.triedIds, Total(t)))
  {
    hide IdAt, Rank, Count, Total, Ranked, Mirror, IdRefs, UpTo;
    var info', tried' := Mirror(t, t.newIds.Keys, Total(t)), UpTo(t, t.triedIds, Total(t));
    UpToAll(t, t.triedIds);
    forall s | s in tried'
      ensures tried'[s] in info' && info'[tried'[s]].inTried && s == TriedSlot(h, info'[tried'[s]].e.svc)
    {
      RankAt(t, t.newIds.Keys, t.triedIds[s]);
    }
    forall i: nat | i in info' && info'[i].inTried
      ensures TriedSlot(h, info'[i].e.svc) in tried' && tried'[TriedSlot(h, info'[i].e.svc)] == i
    {
      NumberAt(t, t.newIds.Keys, i);
      assert t.triedIds[TriedSlot(h, t.info[IdAt(t, i)].e.svc)] == IdAt(t, i);
    }
  }

  lemma RenumberedNew(h: Oracle, t: Tables)
    requires Ranked(t) && NewPlaced(h, t.info, t.newIds, {}) && Known(t.info, t.newIds)
    ensures NewPlaced(h, Mirror(t, t.newIds.Keys, Total(t)), Only(t, t.newIds, t.newIds.Keys), {})
  {
    hide IdAt, Rank, Count, Total, Ranked, Mirror, IdRefs;
    forall s | s in t.newIds
      ensures var i := t.info[t.newIds[s]];
              Rank(t, t.newIds[s]) in Mirror(t, t.newIds.Keys, Total(t))
              && Mirror(t, t.newIds.Keys, Total(t))[Rank(t, t.newIds[s])].e.svc == i.e.svc
              && Mirror(t, t.newIds.Keys, Total(t))[Rank(t, t.newIds[s])].inTried == i.inTried
    {
      RankAt(t, t.newIds.Keys, t.newIds[s]);
    }
  }

  lemma RenumberedRefs(t: Tables, i: nat)
    requires Ranked(t) && Known(t.info, t.newIds) && i < Total(t)
    ensures IdRefs(Only(t, t.newIds, t.newIds.Keys), i) == IdRefs(t.newIds, IdAt(t, i))
    ensures IdRefs(t.newIds, IdAt(t, i)) * t.newIds.Keys == IdRefs(t.newIds, IdAt(t, i))
  {
    hide IdAt, Rank, Count;
  }

  lemma RenumberedCounts(t: Tables)
    requires Ranked(t) && RefCounted(t.info, t.newIds, {}) && Known(t.info, t.newIds)
    ensures var info' := Mirror(t, t.newIds.Keys, Total(t));
            && RefCounted(info', Only(t, t.newIds, t.newIds.Keys), {})
            && Counted(info', Count(t, false), Count(t, true), {}, 0)
  {
    hide IdAt, Rank, Count, IdRefs, Mirror, Ranked, Only;
    var info' := Mirror(t, t.newIds.Keys, Total(t));
    forall i: nat | i in info'
      ensures info'[i].refCount == |IdRefs(Only(t, t.newIds, t.newIds.Keys), i)|
      ensures !info'[i].inTried ==> 1 <= info'[i].refCount <= NEW_BUCKETS_PER_ADDRESS
      ensures i < Total(t) && (info'[i].inTried <==> i >= Count(t, false))
    {
      NumberAt(t, t.newIds.Keys, i);
      RenumberedRefs(t, i);
    }
    MirrorKeys(t);
    RangeCount(Untried(info', {}), 0, Count(t, false));
    RangeCount(TriedSet(info'), Count(t, false), Total(t));
  }

  lemma MirrorKeys(t: Tables)
    requires Ranked(t)
    ensures forall i: nat :: i in Mirror(t, t.newIds.Keys, Total(t)) <==> i < Total(t)
  {
    hide IdAt, Rank, Count, IdRefs, Ranked;
  }

  lemma {:induction false} RangeCount(s: set<nat>, a: nat, b: nat)
    requires a <= b && forall i: nat :: i in s <==> a <= i < b
    ensures |s| == b - a
    decreases b
  {
    if a == b {
      assert s == {};
    } else {
      RangeCount(s - {b - 1}, a, b - 1);
    }
  }

  lemma RenumberedEntries(t: Tables)
    requires Ranked(t) && Known(t.info, t.addrs)
    ensures var info' := Mirror(t, t.newIds.Keys, Total(t));
            Entries(info', UpTo(t, t.addrs, Total(t))) == map a | a in Entries(t.info, t.addrs) :: Forget(Entries(t.info, t.addrs)[a])
  {
    hide IdAt, Rank, Count, Total, Ranked, Mirror, IdRefs, UpTo;
    UpToAll(t, t.addrs);
    forall a | a in t.addrs
      ensures Rank(t, t.addrs[a]) in Mirror(t, t.newIds.Keys, Total(t))
      ensures Mirror(t, t.newIds.Keys, Total(t))[Rank(t, t.addrs[a])].e == Forget(t.info[t.addrs[a]].e)
    {
      RankAt(t, t.newIds.Keys, t.addrs[a]);
    }
  }

  lemma RenumberedOccupants(t: Tables, table: map<Slot, nat>, table': map<Slot, nat>)
    requires Ranked(t) && Known(t.info, table) && table'.Keys == table.Keys
    requires forall s :: s in table ==> table'[s] == Rank(t, table[s])
    ensures Occupants(Mirror(t, t.newIds.Keys, Total(t)), table') == Occupants(t.info, table)
  {
    hide IdAt, Rank, Count, Total, Ranked, Mirror, IdRefs;
    forall s | s in table
      ensures Rank(t, table[s]) in Mirror(t, t.newIds.Keys, Total(t))
      ensures Mirror(t, t.newIds.Keys, Total(t))[Rank(t, table[s])].e.svc == t.info[table[s]].e.svc
    {
      RankAt(t, t.newIds.Keys, table[s]);
    }
  }

  lemma RenumberedOrdered(t: Tables)
    requires Ranked(t)
    ensures Ordered(Mirror(t, t.newIds.Keys, Total(t)), Iota(Total(t)))
  {
    hide IdAt, Rank, Count, IdRefs, Mirror, Ranked;
    MirrorKeys(t);
    forall i: nat | i < Total(t)
      ensures Mirror(t, t.newIds.Keys, Total(t))[i].randomPos == i
    {
      NumberAt(t, t.newIds.Keys, i);
    }
  }

  /** The renumbered tables are consistent and stand for the same book, up to memory-only fields. */
  lemma RenumberedSound(h: Oracle, t: Tables)
    requires Sound(h, t)
    ensures Ranked(t) && Known(t.info, t.addrs) && Known(t.info, t.newIds) && Known(t.info, t.triedIds)
    ensures Sound(h, Renumbered(t)) && View(Renumbered(t)) == ForgetBook(View(t))
  {
    hide Indexed, Ordered, TriedPlaced, NewPlaced, RefCounted, Counted, Ranked, Known, Mirror, UpTo, Entries, Occupants, Count, Total, Rank;
    SoundKnown(h, t);
    InvParts(h, t, {}, 0);
    RenumberedIndexed(t);
    RenumberedTried(h, t);
    RenumberedNew(h, t);
    RenumberedCounts(t);
    RenumberedOrdered(t);
    RenumberedEntries(t);
    UpToAll(t, t.triedIds);
    RenumberedOccupants(t, t.triedIds, UpTo(t, t.triedIds, Total(t)));
    RenumberedOccupants(t, t.newIds, Only(t, t.newIds, t.newIds.Keys));
  }

  // ---------- writing ----------

  function Disks(info: Infos, ids: seq<nat>): seq<Disk>
    requires forall j :: 0 <= j < |ids| ==> ids[j] in info
  {
    seq(|ids|, j requires 0 <= j < |ids| => ToDisk(info[ids[j]].e))
  }

  /** The stored numbers of the occupants of positions below `i` of new bucket `b`. */
  ghost function Row(info: Infos, newIds: map<Slot, nat>, b: int, i: nat): seq<int> {
    if i == 0 then []
    else if Slot(b, i - 1) in newIds
    then Row(info, newIds, b, i - 1) + [|Ids(info, newIds[Slot(b, i - 1)], false)|]
    else Row(info, newIds, b, i - 1)
  }

  lemma IdsIn(info: Infos, k: nat, tried: bool)
    ensures forall j :: 0 <= j < |Ids(info, k, tried)| ==> Ids(info, k, tried)[j] in info
  {
    hide Ids;
    forall j | 0 <= j < |Ids(info, k, tried)|
      ensures Ids(info, k, tried)[j] in info
    {
      IdsAt(info, k, tried, j);
    }
  }

  ghost function DumpOf(t: Tables): Dump {
    IdsIn(t.info, t.nextId, false);
    IdsIn(t.info, t.nextId, true);
    Dump(1, 32, Disks(t.info, Ids(t.info, t.nextId, false)), Disks(t.info, Ids(t.info, t.nextId, true)),
         seq(NEW_BUCKET_COUNT, b => Row(t.info, t.newIds, b, BUCKET_SIZE)))
  }

  /** The counters bound how many entries of each kind are met on the way. */
  lemma CountsExact(h: Oracle, t: Tables)
    requires Sound(h, t)
    ensures Count(t, false) == t.nNew && Count(t, true) == t.nTried
  {
    hide Indexed, Ordered, TriedPlaced, NewPlaced, RefCounted, Ids;
    forall id | id in t.info
      ensures id < t.nextId && (Stored(t.info[id], false) <==> !t.info[id].inTried)
    {
      AddrCheck.InfoFacts(h, t, id);
      IdBelow(h, t, id);
    }
    IdsIn(t.info, t.nextId, false);
    IdsIn(t.info, t.nextId, true);
    IdsSet(t.info, t.nextId, false, Untried(t.info, {}));
    IdsSet(t.info, t.nextId, true, TriedSet(t.info));
  }

  lemma IdsSet(info: Infos, k: nat, tried: bool, s: set<nat>)
    requires forall id :: id in s <==> id < k && id in info && Stored(info[id], tried)
    ensures |s| == |Ids(info, k, tried)|
  {
    hide Ids;
    var l := Ids(info, k, tried);
    forall i, j | 0 <= i < j < |l|
      ensures l[i] != l[j]
    {
      IdsAt(info, k, tried, i);
      IdsAt(info, k, tried, j);
    }
    forall id: nat
      ensures id in s <==> id in l
    {
      if id in s {
        IdsHas(info, k, tried, id);
      }
      if id in l {
        var j :| 0 <= j < |l| && l[j] == id;
        IdsAt(info, k, tried, j);
      }
    }
    AddrCheck.IdsCount(l, s);
  }

  lemma {:induction false} IdsMonotone(info: Infos, j: nat, k: nat, tried: bool)
    requires j <= k
    ensures |Ids(info, j, tried)| <= |Ids(info, k, tried)|
    decreases k
  {
    if j < k {
      IdsMonotone(info, j, k - 1, tried);
    }
  }

  method WriteInfos(m: AddrMan, tried: bool) returns (out: seq<Disk>, mapIds: map<nat, int>)
    requires m.Valid()
    ensures out == if tried then DumpOf(m.Snap()).trieds else DumpOf(m.Snap()).news
    ensures mapIds.Keys == m.mapInfo.Keys && forall id :: id in mapIds ==> mapIds[id] == |Ids(m.mapInfo, id, tried)|
  {
    hide Inv, View, TableOf, Cells;
    ghost var t := m.Snap();
    CountsExact(m.h, t);
    out, mapIds := [], map[];
    var nIds := 0;
    for id := 0 to m.nIdCount
      invariant nIds == |out| == |Ids(m.mapInfo, id, tried)|
      invariant forall j :: 0 <= j < nIds ==> Ids(m.mapInfo, id, tried)[j] in m.mapInfo
      invariant out == Disks(m.mapInfo, Ids(m.mapInfo, id, tried))
      invariant forall k: nat :: k in mapIds <==> k in m.mapInfo && k < id
      invariant forall k: nat :: k in mapIds ==> mapIds[k] == |Ids(m.mapInfo, k, tried)|
    {
      if id in m.mapInfo {
        mapIds := mapIds[id := nIds];
        if Stored(m.mapInfo[id], tried) {
          IdsMonotone(m.mapInfo, id + 1, m.nIdCount, tried);
          assert nIds != if tried then m.nTried else m.nNew;
          out := out + [ToDisk(m.mapInfo[id].e)];
          nIds := nIds + 1;
        }
      }
    }
    forall id | id in m.mapInfo
      ensures id in mapIds
    {
      IdBelow(m.h, t, id);
    }
  }

  method Serialize(m: AddrMan) returns (d: Dump)
    requires m.Valid()
    ensures d == DumpOf(m.Snap())
  {
    hide Inv, View, TableOf, Cells, Ids, Disks;
    ghost var t := m.Snap();
    SoundKnown(m.h, t);
    hide Known, Ranked;
    var news, mapUnkIds := WriteInfos(m, false);
    var trieds, _ := WriteInfos(m, true);
    var rows := [];
    for bucket := 0 to NEW_BUCKET_COUNT
      invariant rows == seq(bucket, b => Row(t.info, t.newIds, b, BUCKET_SIZE))
    {
      var row := [];
      for i := 0 to BUCKET_SIZE
        invariant row == Row(t.info, t.newIds, bucket, i)
      {
        ReadCell(m.vvNew, bucket, i);
        if m.vvNew[bucket, i] != -1 {
          KnownAt(t.info, t.newIds, Slot(bucket, i));
          row := row + [mapUnkIds[m.vvNew[bucket, i]]];
        }
      }
      rows := rows + [row];
    }
    d := Dump(1, 32, news, trieds, rows);
  }

  lemma KnownAt<K>(info: Infos, table: map<K, nat>, k: K)
    requires Known(info, table) && k in table
    ensures table[k] in info
  {
  }

  // ---------- reading ----------

  /** `d` was written from the consistent tables `t`. */
  ghost predicate Wrote(h: Oracle, t: Tables, d: Dump) {
    && Sound(h, t) && Ranked(t) && Known(t.info, t.addrs) && Known(t.info, t.newIds) && Known(t.info, t.triedIds)
    && d == DumpOf(t)
  }

  lemma WroteShape(h: Oracle, t: Tables, d: Dump)
    requires Wrote(h, t, d)
    ensures d.version == 1 && d.keySize == 32 && |d.rows| == NEW_BUCKET_COUNT
    ensures |d.news| == Count(t, false) && |d.trieds| == Count(t, true)
    ensures forall b :: 0 <= b < NEW_BUCKET_COUNT ==> d.rows[b] == Row(t.info, t.newIds, b, BUCKET_SIZE)
  {
    hide Sound, Ranked, Known, Ids, Row;
  }

  lemma MirrorStep(t: Tables, seen: set<Slot>, c: nat)
    requires Ranked(t) && c < Total(t)
    ensures var i := t.info[IdAt(t, c)];
            Mirror(t, seen, c + 1) ==
            Mirror(t, seen, c)[c := Info(Forget(i.e), |IdRefs(t.newIds, IdAt(t, c)) * seen|, i.inTried, c)]
  {
    hide IdAt, Rank, Count, IdRefs;
  }

  lemma UpToStep<K>(t: Tables, table: map<K, nat>, c: nat, key: K)
    requires Ranked(t) && Known(t.info, table) && c < Total(t)
    requires key in table && table[key] == IdAt(t, c)
    requires forall k :: k in table && table[k] == IdAt(t, c) ==> k == key
    ensures UpTo(t, table, c + 1) == UpTo(t, table, c)[key := c]
    ensures key !in UpTo(t, table, c)
  {
    hide IdAt, Rank, Count, Total;
    forall k | k in table && Rank(t, table[k]) == c
      ensures k == key
    {
      assert IdAt(t, Rank(t, table[k])) == table[k];
    }
  }

  lemma UpToSkip<K>(t: Tables, table: map<K, nat>, c: nat)
    requires Ranked(t) && Known(t.info, table) && c < Total(t)
    requires forall k :: k in table ==> table[k] != IdAt(t, c)
    ensures UpTo(t, table, c + 1) == UpTo(t, table, c)
  {
    hide IdAt, Rank, Count, Total;
    forall k | k in table
      ensures Rank(t, table[k]) != c
    {
      assert IdAt(t, Rank(t, table[k])) == table[k];
    }
  }

  /** What reading entry `c` adds to the infos and to the address index. */
  lemma EntryStep(h: Oracle, t: Tables, d: Dump, c: nat)
    requires Wrote(h, t, d) && c < Total(t)
    ensures var n := |d.news|;
            && n == Count(t, false) && n + |d.trieds| == Total(t)
            && var disk := if c < n then d.news[c] else d.trieds[c - n];
               && FromDisk(disk) == Forget(t.info[IdAt(t, c)].e)
               && Mirror(t, {}, c + 1) == Mirror(t, {}, c)[c := Info(FromDisk(disk), 0, c >= n, c)]
               && UpTo(t, t.addrs, c + 1) == UpTo(t, t.addrs, c)[disk.svc.ip := c]
               && (c < n ==> UpTo(t, t.triedIds, c + 1) == UpTo(t, t.triedIds, c))
               && (c >= n ==>
                     var s := TriedSlot(h, disk.svc);
                     s !in UpTo(t, t.triedIds, c) && UpTo(t, t.triedIds, c + 1) == UpTo(t, t.triedIds, c)[s := c])
  {
    hide Ids, Row, Mirror, UpTo, Ranked, Inv, Known, Total;
    WroteShape(h, t, d);
    var n, id := Count(t, false), IdAt(t, c);
    TotalIs(t);
    MirrorStep(t, {}, c);
    assert IdRefs(t.newIds, id) * {} == {};
    IdAtFacts(h, t, c);
    UpToStep(t, t.addrs, c, t.info[id].e.svc.ip);
    if c < n {
      UpToSkip(t, t.triedIds, c);
    } else {
      UpToStep(t, t.triedIds, c, TriedSlot(h, t.info[id].e.svc));
    }
  }

  lemma TotalIs(t: Tables)
    ensures Total(t) == Count(t, false) + Count(t, true)
  {
  }

  lemma IdAtFacts(h: Oracle, t: Tables, c: nat)
    requires Sound(h, t) && Ranked(t) && c < Total(t)
    ensures var id := IdAt(t, c);
            && id in t.info && (t.info[id].inTried <==> c >= Count(t, false))
            && var a, s := t.info[id].e.svc.ip, TriedSlot(h, t.info[id].e.svc);
               && a in t.addrs && t.addrs[a] == id && (forall k :: k in t.addrs && t.addrs[k] == id ==> k == a)
               && (c < Count(t, false) ==> forall k :: k in t.triedIds ==> t.triedIds[k] != id)
               && (c >= Count(t, false) ==>
                     s in t.triedIds && t.triedIds[s] == id && forall k :: k in t.triedIds && t.triedIds[k] == id ==> k == s)
  {
    hide Ordered, NewPlaced, RefCounted, Counted, IdAt, Rank, Count, Total;
  }

  method LoadNew(m: AddrMan, d: Dump, ghost t: Tables)
    requires m.Shaped() && m.mapInfo == map[] && m.mapAddr == map[] && m.vRandom == []
    requires TableOf(m.vvNew) == map[] && TableOf(m.vvTried) == map[]
    modifies m`mapInfo, m`mapAddr, m`vRandom, m.vvNew
    ensures m.Shaped() && TableOf(m.vvTried) == map[]
    ensures m.vRandom == Iota(|d.news|) && Ordered(m.mapInfo, m.vRandom)
    ensures Wrote(m.h, t, d) ==>
              && |d.news| <= Total(t) && TableOf(m.vvNew) == map[]
              && m.mapInfo == Mirror(t, {}, |d.news|) && m.mapAddr == UpTo(t, t.addrs, |d.news|)
              && UpTo(t, t.triedIds, |d.news|) == map[]
  {
    hide TableOf, Cells, Ids, DumpOf, Inv, Ranked, Known, IdAt, Rank, Mirror, UpTo, Ordered, Row;
    assert Iota(0) == [];
    EmptyOrdered();
    if Wrote(m.h, t, d) {
      WroteShape(m.h, t, d);
      NothingYet(t);
    }
    for n := 0 to |d.news|
      invariant m.Shaped() && TableOf(m.vvTried) == map[]
      invariant m.vRandom == Iota(n) && Ordered(m.mapInfo, m.vRandom)
      invariant Wrote(m.h, t, d) ==>
                  && TableOf(m.vvNew) == map[] && m.mapInfo == Mirror(t, {}, n) && m.mapAddr == UpTo(t, t.addrs, n)
                  && UpTo(t, t.triedIds, n) == map[]
    {
      if Wrote(m.h, t, d) {
        EntryStep(m.h, t, d, n);
      }
      var info := Info(FromDisk(d.news[n]), 0, false, -1);
      m.mapAddr := m.mapAddr[info.e.svc.ip := n];
      info := info.(randomPos := |m.vRandom|);
      OrderFresh(m.mapInfo, n);
      CreateOrdered(m.mapInfo, m.vRandom, n, info);
      m.vRandom := m.vRandom + [n];
      if d.version != 1 || |d.rows| != NEW_BUCKET_COUNT {
        var b := NewBucket(m.h, info.e.svc, info.e.source);
        var p := BucketPosition(m.h, true, b, info.e.svc);
        if m.vvNew[b, p] == -1 {
          Write(m.vvNew, b, p, n);
          CreateOrdered(m.mapInfo, m.vRandom[..n], n, info.(refCount := info.refCount + 1));
          info := info.(refCount := info.refCount + 1);
        }
      }
      assert m.vRandom[..n] == Iota(n);
      m.mapInfo := m.mapInfo[n := info];
      assert m.vRandom == Iota(n + 1);
    }
  }

  lemma EmptyOrdered()
    ensures Ordered(map[], [])
  {
  }

  lemma NothingYet(t: Tables)
    requires Ranked(t) && Known(t.info, t.addrs) && Known(t.info, t.triedIds)
    ensures Mirror(t, {}, 0) == map[] && UpTo(t, t.addrs, 0) == map[] && UpTo(t, t.triedIds, 0) == map[]
  {
    hide IdAt, Rank, Count, Total;
  }

  lemma OrderFresh(info: Infos, n: nat)
    requires Ordered(info, Iota(n))
    ensures forall id: nat :: id in info <==> id < n
  {
    forall id: nat | id < n
      ensures id in info
    {
      assert Iota(n)[id] == id;
    }
  }

  method LoadTried(m: AddrMan, d: Dump, ghost t: Tables) returns (nLost: nat)
    requires m.Shaped() && TableOf(m.vvTried) == map[] && m.nIdCount == |d.news|
    requires m.vRandom == Iota(|d.news|) && Ordered(m.mapInfo, m.vRandom)
    requires Wrote(m.h, t, d) ==>
               && |d.news| <= Total(t) && m.mapInfo == Mirror(t, {}, |d.news|)
               && m.mapAddr == UpTo(t, t.addrs, |d.news|) && UpTo(t, t.triedIds, |d.news|) == map[]
    modifies m`nIdCount, m`mapInfo, m`mapAddr, m`vRandom, m.vvTried
    ensures m.Shaped() && m.vRandom == Iota(m.nIdCount) && Ordered(m.mapInfo, m.vRandom) && |d.news| <= m.nIdCount
    ensures Wrote(m.h, t, d) ==>
              && nLost == 0 && m.nIdCount == Total(t) && m.mapInfo == Mirror(t, {}, Total(t))
              && m.mapAddr == UpTo(t, t.addrs, Total(t)) && TableOf(m.vvTried) == UpTo(t, t.triedIds, Total(t))
  {
    hide TableOf, Cells, Ids, DumpOf, Inv, Ranked, Known, IdAt, Rank, Mirror, UpTo, Ordered, Row, Count;
    nLost := 0;
    ghost var n := |d.news|;
    if Wrote(m.h, t, d) {
      WroteShape(m.h, t, d);
      TotalIs(t);
    }
    for k := 0 to |d.trieds|
      invariant m.Shaped() && nLost <= k && m.nIdCount == n + k - nLost
      invariant m.vRandom == Iota(m.nIdCount) && Ordered(m.mapInfo, m.vRandom)
      invariant Wrote(m.h, t, d) ==>
                  && nLost == 0 && n + |d.trieds| == Total(t) && m.mapInfo == Mirror(t, {}, n + k)
                  && m.mapAddr == UpTo(t, t.addrs, n + k) && TableOf(m.vvTried) == UpTo(t, t.triedIds, n + k)
    {
      if Wrote(m.h, t, d) {
        EntryStep(m.h, t, d, n + k);
      }
      var info := Info(FromDisk(d.trieds[k]), 0, false, -1);
      var b := TriedBucket(m.h, info.e.svc);
      var p := BucketPosition(m.h, false, b, info.e.svc);
      ReadCell(m.vvTried, b, p);
      if m.vvTried[b, p] == -1 {
        info := info.(randomPos := |m.vRandom|, inTried := true);
        OrderFresh(m.mapInfo, m.nIdCount);
        CreateOrdered(m.mapInfo, m.vRandom, m.nIdCount, info);
        m.vRandom := m.vRandom + [m.nIdCount];
        m.mapInfo := m.mapInfo[m.nIdCount := info];
        m.mapAddr := m.mapAddr[info.e.svc.ip := m.nIdCount];
        Write(m.vvTried, b, p, m.nIdCount);
        assert m.vRandom == Iota(m.nIdCount + 1);
        m.nIdCount := m.nIdCount + 1;
      } else {
        nLost := nLost + 1;
      }
    }
  }

  /** From position `i` on, the next occupied position of new bucket `b`. */
  lemma {:induction false} NextOccupied(info: Infos, newIds: map<Slot, nat>, b: int, i: nat) returns (k: nat)
    requires i <= BUCKET_SIZE && |Row(info, newIds, b, i)| < |Row(info, newIds, b, BUCKET_SIZE)|
    ensures i <= k < BUCKET_SIZE && Slot(b, k) in newIds
    ensures Row(info, newIds, b, k) == Row(info, newIds, b, i)
    ensures AddrCheck.Seen(newIds, b, k) == AddrCheck.Seen(newIds, b, i)
    decreases BUCKET_SIZE - i
  {
    if Slot(b, i) in newIds {
      k := i;
    } else {
      AddrCheck.SeenStep(newIds, b, i);
      k := NextOccupied(info, newIds, b, i + 1);
    }
  }

  lemma {:induction false} RowPrefix(info: Infos, newIds: map<Slot, nat>, b: int, i: nat, k: nat)
    requires i <= k
    ensures |Row(info, newIds, b, i)| <= |Row(info, newIds, b, k)|
    ensures Row(info, newIds, b, i) == Row(info, newIds, b, k)[..|Row(info, newIds, b, i)|]
    decreases k
  {
    if i < k {
      RowPrefix(info, newIds, b, i, k - 1);
    }
  }

  lemma {:induction false} RowDone(info: Infos, newIds: map<Slot, nat>, b: int, i: nat)
    requires i <= BUCKET_SIZE && |Row(info, newIds, b, i)| == |Row(info, newIds, b, BUCKET_SIZE)|
    ensures AddrCheck.Seen(newIds, b, i) == AddrCheck.Seen(newIds, b, BUCKET_SIZE)
    decreases BUCKET_SIZE - i
  {
    if i < BUCKET_SIZE {
      RowPrefix(info, newIds, b, i + 1, BUCKET_SIZE);
      AddrCheck.SeenStep(newIds, b, i);
      RowDone(info, newIds, b, i + 1);
    }
  }

  lemma OnlyStep(t: Tables, seen: set<Slot>, s: Slot)
    requires Ranked(t) && Known(t.info, t.newIds) && s in t.newIds && s !in seen
    ensures s !in Only(t, t.newIds, seen)
    ensures Only(t, t.newIds, seen + {s}) == Only(t, t.newIds, seen)[s := Rank(t, t.newIds[s])]
  {
    hide Rank, Ranked;
  }

  lemma SeenRefs(newIds: map<Slot, nat>, seen: set<Slot>, s: Slot, id: nat)
    requires s in newIds && s !in seen
    ensures newIds[s] == id ==>
              && |IdRefs(newIds, id) * (seen + {s})| == |IdRefs(newIds, id) * seen| + 1
              && |IdRefs(newIds, id) * seen| < |IdRefs(newIds, id)|
    ensures newIds[s] != id ==> IdRefs(newIds, id) * (seen + {s}) == IdRefs(newIds, id) * seen
  {
    var r := IdRefs(newIds, id);
    if newIds[s] == id {
      assert r * (seen + {s}) == r * seen + {s};
      SubsetCount(r * seen + {s}, r);
    } else {
      assert s !in r;
    }
  }

  /** What entering the occupant of `s` does to the infos. */
  lemma MirrorSeen(h: Oracle, t: Tables, seen: set<Slot>, s: Slot)
    requires Sound(h, t) && Ranked(t) && Known(t.info, t.newIds) && s in t.newIds && s !in seen
    ensures var r, info' := Rank(t, t.newIds[s]), Mirror(t, seen, Total(t));
            && r in info' && r == |Ids(t.info, t.newIds[s], false)| && r < Count(t, false)
            && info'[r].refCount < NEW_BUCKETS_PER_ADDRESS
            && s.pos == BucketPosition(h, true, s.bucket, info'[r].e.svc)
            && Mirror(t, seen + {s}, Total(t)) == info'[r := info'[r].(refCount := info'[r].refCount + 1)]
  {
    hide Inv, IdRefs, Ids, NewPlaced, Indexed, Ordered, TriedPlaced, RefCounted, Known, Ranked, Mirror, IdAt, Count;
    var id := t.newIds[s];
    InvParts(h, t, {}, 0);
    AddrCheck.NewSlotAt(h, t.info, t.newIds, s);
    AddrCheck.InfoFacts(h, t, id);
    RankAt(t, seen, id);
    NumberAt(t, seen, Rank(t, id));
    var info', info'' := Mirror(t, seen, Total(t)), Mirror(t, seen + {s}, Total(t));
    MirrorDomain(t, seen, seen + {s});
    forall i | i in info'
      ensures info''[i] == if i == Rank(t, id) then info'[i].(refCount := info'[i].refCount + 1) else info'[i]
    {
      NumberAt(t, seen, i);
      NumberAt(t, seen + {s}, i);
      SeenRefs(t.newIds, seen, s, IdAt(t, i));
    }
    SeenRefs(t.newIds, seen, s, id);
  }

  lemma MirrorDomain(t: Tables, seen: set<Slot>, seen': set<Slot>)
    requires Ranked(t)
    ensures Mirror(t, seen, Total(t)).Keys == Mirror(t, seen', Total(t)).Keys
  {
    hide IdAt, Rank, Count, Total, IdRefs, Ranked;
  }

  method LoadRow(m: AddrMan, d: Dump, bucket: nat, ghost t: Tables)
    requires m.Shaped() && bucket < |d.rows| && m.nNew == |d.news| <= m.nIdCount
    requires m.vRandom == Iota(m.nIdCount) && Ordered(m.mapInfo, m.vRandom)
    requires Wrote(m.h, t, d) ==>
               && m.mapInfo == Mirror(t, AddrCheck.Seen(t.newIds, bucket, 0), Total(t))
               && TableOf(m.vvNew) == Only(t, t.newIds, AddrCheck.Seen(t.newIds, bucket, 0))
    modifies m`mapInfo, m.vvNew
    ensures m.Shaped() && Ordered(m.mapInfo, m.vRandom)
    ensures Wrote(m.h, t, d) ==>
              && m.mapInfo == Mirror(t, AddrCheck.Seen(t.newIds, bucket, BUCKET_SIZE), Total(t))
              && TableOf(m.vvNew) == Only(t, t.newIds, AddrCheck.Seen(t.newIds, bucket, BUCKET_SIZE))
  {
    hide TableOf, Cells, Ids, DumpOf, Inv, Ranked, Known, IdAt, Rank, Mirror, Only, Ordered, AddrCheck.Seen, Count, Total;
    var row := d.rows[bucket];
    ghost var i: nat := 0;
    if Wrote(m.h, t, d) {
      WroteShape(m.h, t, d);
      RowPrefix(t.info, t.newIds, bucket, 0, BUCKET_SIZE);
    }
    for n := 0 to |row|
      invariant m.Shaped() && Ordered(m.mapInfo, m.vRandom)
      invariant Wrote(m.h, t, d) ==>
                  && i <= BUCKET_SIZE && row == Row(t.info, t.newIds, bucket, BUCKET_SIZE)
                  && |Row(t.info, t.newIds, bucket, i)| == n
                  && m.mapInfo == Mirror(t, AddrCheck.Seen(t.newIds, bucket, i), Total(t))
                  && TableOf(m.vvNew) == Only(t, t.newIds, AddrCheck.Seen(t.newIds, bucket, i))
    {
      var nIndex := row[n];
      if Wrote(m.h, t, d) {
        i := NextOccupied(t.info, t.newIds, bucket, i);
        RowPrefix(t.info, t.newIds, bucket, i + 1, BUCKET_SIZE);
        ghost var seen := AddrCheck.Seen(t.newIds, bucket, i);
        AddrCheck.SeenStep(t.newIds, bucket, i);
        MirrorSeen(m.h, t, seen, Slot(bucket, i));
        OnlyStep(t, seen, Slot(bucket, i));
      }
      if 0 <= nIndex < m.nNew {
        OrderFresh(m.mapInfo, m.nIdCount);
        var info := m.mapInfo[nIndex];
        var p := BucketPosition(m.h, true, bucket, info.e.svc);
        if d.version == 1 && |d.rows| == NEW_BUCKET_COUNT {
          ReadCell(m.vvNew, bucket, p);
          if m.vvNew[bucket, p] == -1 && info.refCount < NEW_BUCKETS_PER_ADDRESS {
            ghost var was := m.mapInfo;
            m.mapInfo := m.mapInfo[nIndex := info.(refCount := info.refCount + 1)];
            SameOrdered(was, m.mapInfo, m.vRandom);
            Write(m.vvNew, bucket, p, nIndex);
          }
        }
      }
      i := i + 1;
    }
    if Wrote(m.h, t, d) {
      RowDone(t.info, t.newIds, bucket, i);
    }
  }

  method LoadRows(m: AddrMan, d: Dump, ghost t: Tables)
    requires m.Shaped() && m.nNew == |d.news| <= m.nIdCount
    requires m.vRandom == Iota(m.nIdCount) && Ordered(m.mapInfo, m.vRandom)
    requires Wrote(m.h, t, d) ==> m.mapInfo == Mirror(t, {}, Total(t)) && TableOf(m.vvNew) == map[]
    modifies m`mapInfo, m.vvNew
    ensures m.Shaped() && Ordered(m.mapInfo, m.vRandom)
    ensures Wrote(m.h, t, d) ==>
              && m.mapInfo == Mirror(t, t.newIds.Keys, Total(t))
              && TableOf(m.vvNew) == Only(t, t.newIds, t.newIds.Keys)
  {
    hide TableOf, Cells, Ids, DumpOf, Inv, Ranked, Known, IdAt, Rank, Mirror, Ordered, AddrCheck.Seen, Count, Total, Row;
    if Wrote(m.h, t, d) {
      WroteShape(m.h, t, d);
      SeenEnds(m.h, t);
      assert Only(t, t.newIds, {}) == map[];
    }
    hide Only;
    for bucket := 0 to |d.rows|
      invariant m.Shaped() && Ordered(m.mapInfo, m.vRandom)
      invariant Wrote(m.h, t, d) ==>
                  && |d.rows| == NEW_BUCKET_COUNT
                  && m.mapInfo == Mirror(t, AddrCheck.Seen(t.newIds, bucket, 0), Total(t))
                  && TableOf(m.vvNew) == Only(t, t.newIds, AddrCheck.Seen(t.newIds, bucket, 0))
    {
      LoadRow(m, d, bucket, t);
      if Wrote(m.h, t, d) {
        SeenEnds(m.h, t);
        AddrCheck.SeenRow(t.newIds, bucket);
      }
    }
  }

  lemma SeenEnds(h: Oracle, t: Tables)
    requires Sound(h, t)
    ensures forall s :: s in t.newIds ==> 0 <= s.bucket < NEW_BUCKET_COUNT && 0 <= s.pos < BUCKET_SIZE
    ensures AddrCheck.Seen(t.newIds, 0, 0) == {} && AddrCheck.Seen(t.newIds, NEW_BUCKET_COUNT, 0) == t.newIds.Keys
  {
    hide Indexed, Ordered, TriedPlaced, RefCounted, Counted;
  }

  /** Drop the untried entries that ended up without a slot. */
  method Prune(m: AddrMan, ghost t: Tables)
    requires m.Shaped() && Ordered(m.mapInfo, m.vRandom)
    modifies m`mapInfo, m`mapAddr, m`vRandom, m`nNew
    ensures m.Shaped() && Ordered(m.mapInfo, m.vRandom)
    ensures (forall id :: id in old(m.mapInfo) ==> old(m.mapInfo)[id].inTried || old(m.mapInfo)[id].refCount != 0) ==>
              m.Snap() == old(m.Snap())
  {
    hide TableOf, Cells, Ordered, DeleteT;
    for id := 0 to m.nIdCount
      invariant m.Shaped() && Ordered(m.mapInfo, m.vRandom)
      invariant (forall id :: id in old(m.mapInfo) ==> old(m.mapInfo)[id].inTried || old(m.mapInfo)[id].refCount != 0) ==>
                  m.Snap() == old(m.Snap())
    {
      if id in m.mapInfo && !m.mapInfo[id].inTried && m.mapInfo[id].refCount == 0 {
        DeleteOrdered(m.Snap(), id);
        m.Delete(id);
      }
    }
  }

  lemma DeleteOrdered(t: Tables, id: nat)
    requires Ordered(t.info, t.order) && id in t.info
    ensures var u := DeleteT(t, id); Ordered(u.info, u.order)
  {
    hide Ordered;
    var p, last := t.info[id].randomPos, |t.order| - 1;
    SwapToLast(t, id);
    var u := SwapRandomT(t, p, last);
    SwapOrdered(t, p, last);
    DropOrdered(u.info, u.order, id);
  }

  // ---------- the limits are never reached ----------

  ghost function RowSlots(b: int, size: nat): (r: set<Slot>)
    ensures forall s :: s in r <==> s.bucket == b && 0 <= s.pos < size
    ensures |r| == size
  {
    if size == 0 then {} else RowSlots(b, size - 1) + {Slot(b, size - 1)}
  }

  lemma {:induction false} SlotsCount(buckets: nat)
    ensures |Slots(buckets, BUCKET_SIZE)| == buckets * BUCKET_SIZE
  {
    hide Slots;
    if buckets == 0 {
      assert Slots(0, BUCKET_SIZE) == {};
    } else {
      SlotsCount(buckets - 1);
      assert Slots(buckets, BUCKET_SIZE) == Slots(buckets - 1, BUCKET_SIZE) + RowSlots(buckets - 1, BUCKET_SIZE);
    }
  }

  /** No more ids than slots when every id sits somewhere. */
  lemma {:induction false} SeatsBound(table: map<Slot, nat>, ids: set<nat>)
    requires forall id :: id in ids ==> IdRefs(table, id) != {}
    ensures |ids| <= |table|
  {
    if ids != {} {
      var id :| id in ids;
      var s :| s in IdRefs(table, id);
      forall j | j in ids - {id}
        ensures IdRefs(table - {s}, j) != {}
      {
        var r :| r in IdRefs(table, j);
        assert r in IdRefs(table - {s}, j);
      }
      SeatsBound(table - {s}, ids - {id});
      assert (table - {s}).Keys == table.Keys - {s};
    }
  }

  lemma TableBound(table: map<Slot, nat>, buckets: nat)
    requires forall s :: s in table ==> 0 <= s.bucket < buckets && 0 <= s.pos < BUCKET_SIZE
    ensures |table| <= buckets * BUCKET_SIZE
  {
    SlotsCount(buckets);
    assert table.Keys <= Slots(buckets, BUCKET_SIZE);
    SubsetCount(table.Keys, Slots(buckets, BUCKET_SIZE));
  }

  /** A consistent manager never holds more entries than reading accepts. */
  lemma WithinLimits(h: Oracle, t: Tables)
    requires Sound(h, t)
    ensures Count(t, false) <= NEW_BUCKET_COUNT * BUCKET_SIZE && Count(t, true) <= TRIED_BUCKET_COUNT * BUCKET_SIZE
  {
    hide Indexed, Ordered, Ids;
    CountsExact(h, t);
    forall id | id in Untried(t.info, {})
      ensures IdRefs(t.newIds, id) != {}
    {
      assert t.info[id].refCount >= 1;
    }
    forall id | id in TriedSet(t.info)
      ensures IdRefs(t.triedIds, id) != {}
    {
      assert TriedSlot(h, t.info[id].e.svc) in IdRefs(t.triedIds, id);
    }
    SeatsBound(t.newIds, Untried(t.info, {}));
    SeatsBound(t.triedIds, TriedSet(t.info));
    TableBound(t.newIds, NEW_BUCKET_COUNT);
    TableBound(t.triedIds, TRIED_BUCKET_COUNT);
  }

  /**
   Reading a stored manager into a new object. It refuses a wrong key size and lists that
   exceed the tables. What a consistent manager wrote comes back as its renumbering.
   */
  method Unserialize(h: Oracle, d: Dump, ghost t: Tables) returns (ok: bool, m: AddrMan)
    ensures m.h == h && m.Shaped()
    ensures ok <==> && d.keySize == 32 && |d.news| <= NEW_BUCKET_COUNT * BUCKET_SIZE
                    && |d.trieds| <= TRIED_BUCKET_COUNT * BUCKET_SIZE
    ensures ok ==> Ordered(m.mapInfo, m.vRandom)
    ensures Wrote(h, t, d) ==> ok && m.Snap() == Renumbered(t)
  {
    hide TableOf, Cells, Ids, DumpOf, Inv, Ranked, Known, IdAt, Rank, Mirror, Only, UpTo, Ordered, Count, Total, Row, View;
    m := new AddrMan(h);
    if Wrote(h, t, d) {
      WroteShape(h, t, d);
      WithinLimits(h, t);
      RenumberedRefCounts(h, t);
    }
    ok := false;
    if d.keySize != 32 {
      return;
    }
    m.nNew, m.nTried := |d.news|, |d.trieds|;
    if m.nNew > NEW_BUCKET_COUNT * BUCKET_SIZE {
      return;
    }
    if m.nTried > TRIED_BUCKET_COUNT * BUCKET_SIZE {
      return;
    }
    ok := true;
    LoadNew(m, d, t);
    m.nIdCount := |d.news|;
    var nLost := LoadTried(m, d, t);
    m.nTried := m.nTried - nLost;
    LoadRows(m, d, t);
    Prune(m, t);
  }

  lemma RenumberedRefCounts(h: Oracle, t: Tables)
    requires Sound(h, t) && Ranked(t)
    ensures var info' := Mirror(t, t.newIds.Keys, Total(t));
            forall i :: i in info' ==> info'[i].inTried || info'[i].refCount != 0
  {
    hide Ids, Inv, Ranked, IdAt, Rank, Mirror, Count, Total;
    SoundKnown(h, t);
    forall i | i in Mirror(t, t.newIds.Keys, Total(t))
      ensures Mirror(t, t.newIds.Keys, Total(t))[i].inTried || Mirror(t, t.newIds.Keys, Total(t))[i].refCount != 0
    {
      NumberAt(t, t.newIds.Keys, i);
      RenumberedRefs(t, i);
      AddrCheck.InfoFacts(h, t, IdAt(t, i));
    }
  }

  /** Writing a consistent manager and reading it back loses nothing but the memory-only fields. */
  method RoundTrip(m: AddrMan) returns (n: AddrMan)
    requires m.Valid()
    ensures n.Valid() && n.Contents() == ForgetBook(m.Contents())
  {
    hide TableOf, Cells, DumpOf, Inv, Ranked, Known, View, Renumbered;
    var d := Serialize(m);
    RenumberedSound(m.h, m.Snap());
    var ok;
    ok, n := Unserialize(m.h, d, m.Snap());
  }
}
