/**
 The address manager itself: the mutable indexes and the methods that update them in place.
 `Snap` is the value of all indexes, `View(Snap())` the book they stand for.
 */
module AddrMan {
  import Numbers
  import opened AddrBook
  import opened AddrTables

  const GETADDR_MAX_PCT := 33
  const GETADDR_MAX := 2000

  function Slots(buckets: nat, size: nat): (r: set<Slot>)
    ensures forall s :: s in r <==> 0 <= s.bucket < buckets && 0 <= s.pos < size
  {
    set b, p | 0 <= b < buckets && 0 <= p < size :: Slot(b, p)
  }

  /** A bucket table as a map; -1 marks a free slot. */
  ghost function TableOf(a: array2<int>): map<Slot, nat>
    reads a
  {
    map s | s in Slots(a.Length0, a.Length1) && a[s.bucket, s.pos] >= 0 :: a[s.bucket, s.pos]
  }

  /** No cell holds a negative number other than -1. */
  ghost predicate Cells(a: array2<int>)
    reads a
  {
    forall b, p :: 0 <= b < a.Length0 && 0 <= p < a.Length1 ==> a[b, p] >= -1
  }

  method Write(a: array2<int>, b: int, p: int, v: int)
    requires 0 <= b < a.Length0 && 0 <= p < a.Length1 && v >= -1 && Cells(a)
    modifies a
    ensures Cells(a) && a[b, p] == v
    ensures TableOf(a) == if v == -1 then old(TableOf(a)) - {Slot(b, p)} else old(TableOf(a))[Slot(b, p) := v]
  {
    a[b, p] := v;
  }

  lemma ReadCell(a: array2<int>, b: int, p: int)
    requires 0 <= b < a.Length0 && 0 <= p < a.Length1 && Cells(a)
    ensures a[b, p] == -1 <==> Slot(b, p) !in TableOf(a)
    ensures a[b, p] != -1 ==> a[b, p] >= 0 && TableOf(a)[Slot(b, p)] == a[b, p]
  {
  }

  lemma NoCells(a: array2<int>)
    requires forall b, p :: 0 <= b < a.Length0 && 0 <= p < a.Length1 ==> a[b, p] == -1
    ensures Cells(a) && TableOf(a) == map[]
  {
  }

  function Rotate(n: int, rnd: int): (b: int)
    ensures 0 <= b < NEW_BUCKET_COUNT
  {
    (n + rnd) % NEW_BUCKET_COUNT
  }

  /** Every bucket is visited by some step of a scan that starts at a random bucket. */
  lemma RotateOnto(b: int, rnd: int)
    requires 0 <= b < NEW_BUCKET_COUNT && 0 <= rnd < NEW_BUCKET_COUNT
    ensures exists m :: 0 <= m < NEW_BUCKET_COUNT && Rotate(m, rnd) == b
  {
    var m := if b >= rnd then b - rnd else b - rnd + NEW_BUCKET_COUNT;
    assert Rotate(m, rnd) == b;
  }

  /** How many addresses a getaddr call may return when `total` are known. */
  function Quota(total: nat): nat {
    var n := GETADDR_MAX_PCT * total / 100;
    if n > GETADDR_MAX then GETADDR_MAX else n
  }

  /** An address that a getaddr call may return: a known entry that is not terrible. */
  predicate Offered(b: Book, x: Address, now: int) {
    && x.svc.ip in b.entries
    && var e := b.entries[x.svc.ip];
       x == Address(e.svc, e.time, e.services) && !IsTerrible(e, now)
  }

  /** The entries in the random order. */
  ghost function Line(info: Infos, order: seq<nat>): (es: seq<Entry>)
    requires Ordered(info, order)
    ensures |es| == |order| && forall k :: 0 <= k < |es| ==> es[k] == info[order[k]].e
  {
    seq(|order|, k requires 0 <= k < |order| => info[order[k]].e)
  }

  /** The good entries of a sequence, in that order. */
  ghost function Picks(es: seq<Entry>, now: int): seq<Address> {
    if es == [] then []
    else
      var rest, e := Picks(es[..|es| - 1], now), es[|es| - 1];
      if IsTerrible(e, now) then rest else rest + [Address(e.svc, e.time, e.services)]
  }

  lemma PicksMore(es: seq<Entry>, n: nat, now: int)
    requires n < |es|
    ensures Picks(es[..n + 1], now) ==
            if IsTerrible(es[n], now) then Picks(es[..n], now)
            else Picks(es[..n], now) + [Address(es[n].svc, es[n].time, es[n].services)]
  {
    assert es[..n + 1][..n] == es[..n];
  }

  lemma PicksNone(es: seq<Entry>, now: int)
    ensures Picks(es[..0], now) == []
  {
  }

  /** Swapping at or behind position `n` does not change the line before `n`. */
  lemma LineSwap(t: Tables, n: nat, pos: nat)
    requires Ordered(t.info, t.order) && n < |t.order| && n <= pos < |t.order|
    ensures var u := SwapRandomT(t, n, pos);
            && Ordered(u.info, u.order) && |u.order| == |t.order|
            && Line(u.info, u.order)[..n] == Line(t.info, t.order)[..n]
  {
    hide Ordered;
    var u := SwapRandomT(t, n, pos);
    SwapSame(t, n, pos);
    SwapOrdered(t, n, pos);
    forall k | 0 <= k < n
      ensures Line(u.info, u.order)[k] == Line(t.info, t.order)[k]
    {
      OrderAt(t.info, t.order, k);
    }
  }

  ghost predicate DistinctIps(es: seq<Entry>) {
    forall j, k :: 0 <= j < k < |es| ==> es[j].svc.ip != es[k].svc.ip
  }

  /** The line names every known address exactly once. */
  lemma LineEntries(h: Oracle, t: Tables)
    requires Sound(h, t)
    ensures Ordered(t.info, t.order) && DistinctIps(Line(t.info, t.order))
    ensures var es := Line(t.info, t.order);
            && (forall k :: 0 <= k < |es| ==> es[k].svc.ip in View(t).entries && View(t).entries[es[k].svc.ip] == es[k])
            && (forall a :: a in View(t).entries ==> exists k :: 0 <= k < |es| && es[k].svc.ip == a)
  {
    hide TriedPlaced, NewPlaced, RefCounted, Counted;
    var es := Line(t.info, t.order);
    forall a | a in View(t).entries
      ensures exists k :: 0 <= k < |es| && es[k].svc.ip == a
    {
      var id := t.addrs[a];
      assert es[t.info[id].randomPos].svc.ip == a;
    }
  }

  lemma {:induction false} DistinctCount(es: seq<Entry>, all: set<NetAddr>)
    requires DistinctIps(es)
    requires forall a :: a in all <==> exists k :: 0 <= k < |es| && es[k].svc.ip == a
    ensures |all| == |es|
  {
    if es != [] {
      var last := es[|es| - 1];
      var rest := es[..|es| - 1];
      assert last.svc.ip in all;
      forall a | a in all - {last.svc.ip}
        ensures exists k :: 0 <= k < |rest| && rest[k].svc.ip == a
      {
        var k :| 0 <= k < |es| && es[k].svc.ip == a;
        assert rest[k].svc.ip == a;
      }
      DistinctCount(rest, all - {last.svc.ip});
    } else {
      assert all == {};
    }
  }

  lemma EntriesCount(h: Oracle, t: Tables)
    requires Sound(h, t)
    ensures |View(t).entries| == |t.order|
  {
    hide Sound, View, Line, Ordered;
    LineEntries(h, t);
    DistinctCount(Line(t.info, t.order), View(t).entries.Keys);
  }

  ghost predicate Picked(es: seq<Entry>, x: Address, now: int) {
    exists j :: 0 <= j < |es| && !IsTerrible(es[j], now) && x == Address(es[j].svc, es[j].time, es[j].services)
  }

  /** Exactly the good entries are picked, each once. */
  lemma PicksFacts(es: seq<Entry>, now: int)
    requires DistinctIps(es)
    ensures var p := Picks(es, now);
            && (forall k :: 0 <= k < |p| ==> Picked(es, p[k], now))
            && (forall j, k :: 0 <= j < k < |p| ==> p[j].svc.ip != p[k].svc.ip)
            && (forall j :: 0 <= j < |es| && !IsTerrible(es[j], now) ==>
                  exists k :: 0 <= k < |p| && p[k].svc.ip == es[j].svc.ip)
  {
    hide IsTerrible, Picks, Picked;
    PicksFrom(es, now);
    PicksDistinct(es, now);
    PicksAll(es, now);
    assert forall j :: 0 <= j < |es| && !IsTerrible(es[j], now) ==> HasPick(Picks(es, now), es[j].svc.ip);
  }

  lemma {:induction false} PicksFrom(es: seq<Entry>, now: int)
    ensures forall k :: 0 <= k < |Picks(es, now)| ==> Picked(es, Picks(es, now)[k], now)
  {
    hide IsTerrible;
    if es != [] {
      var n := |es| - 1;
      PicksFrom(es[..n], now);
      var q, p := Picks(es[..n], now), Picks(es, now);
      forall k | 0 <= k < |p|
        ensures Picked(es, p[k], now)
      {
        if k < |q| {
          assert Picked(es[..n], q[k], now);
          var j :| 0 <= j < n && !IsTerrible(es[..n][j], now) && q[k] == Address(es[..n][j].svc, es[..n][j].time, es[..n][j].services);
          assert es[j] == es[..n][j];
        } else {
          assert p[k] == Address(es[n].svc, es[n].time, es[n].services);
        }
      }
    }
  }

  lemma {:induction false} PicksDistinct(es: seq<Entry>, now: int)
    requires DistinctIps(es)
    ensures forall j, k :: 0 <= j < k < |Picks(es, now)| ==> Picks(es, now)[j].svc.ip != Picks(es, now)[k].svc.ip
  {
    hide IsTerrible;
    if es != [] {
      var n := |es| - 1;
      PicksDistinct(es[..n], now);
      PicksFrom(es[..n], now);
      var q := Picks(es[..n], now);
      forall k | 0 <= k < |q|
        ensures q[k].svc.ip != es[n].svc.ip
      {
        assert Picked(es[..n], q[k], now);
      }
    }
  }

  ghost predicate HasPick(p: seq<Address>, ip: NetAddr) { exists k :: 0 <= k < |p| && p[k].svc.ip == ip }

  lemma {:induction false} PicksAll(es: seq<Entry>, now: int)
    ensures forall j :: 0 <= j < |es| && !IsTerrible(es[j], now) ==> HasPick(Picks(es, now), es[j].svc.ip)
  {
    hide IsTerrible;
    if es != [] {
      var n := |es| - 1;
      PicksAll(es[..n], now);
      var q, p := Picks(es[..n], now), Picks(es, now);
      forall j | 0 <= j < |es| && !IsTerrible(es[j], now)
        ensures HasPick(p, es[j].svc.ip)
      {
        if j < n {
          assert es[..n][j] == es[j];
          assert HasPick(q, es[j].svc.ip);
          var k :| 0 <= k < |q| && q[k].svc.ip == es[j].svc.ip;
          assert p[k] == q[k];
        } else {
          assert p[|q|].svc.ip == es[j].svc.ip;
        }
      }
    }
  }

  /** What a getaddr call returns, stated on the book. */
  lemma PicksOffered(h: Oracle, t: Tables, n: nat, now: int)
    requires Sound(h, t) && Ordered(t.info, t.order) && n <= |t.order|
    ensures var p := Picks(Line(t.info, t.order)[..n], now);
            && (forall k :: 0 <= k < |p| ==> Offered(View(t), p[k], now))
            && (forall j, k :: 0 <= j < k < |p| ==> p[j].svc.ip != p[k].svc.ip)
            && (n == |t.order| ==> forall a :: a in View(t).entries && !IsTerrible(View(t).entries[a], now) ==>
                  exists k :: 0 <= k < |p| && p[k].svc.ip == a)
  {
    hide Sound, View, Line, Ordered, IsTerrible;
    LineEntries(h, t);
    var es := Line(t.info, t.order);
    PicksFacts(es[..n], now);
    if n == |t.order| {
      assert es[..n] == es;
    }
  }

  class AddrMan {
    const h: Oracle
    var nIdCount: nat
    var mapInfo: Infos
    var mapAddr: map<NetAddr, nat>
    var vRandom: seq<nat>
    var nTried: int
    const vvTried: array2<int>
    var nNew: int
    const vvNew: array2<int>
    var nLastGood: int

    ghost function Snap(): Tables
      reads this, vvNew, vvTried
    {
      Tables(nIdCount, mapInfo, mapAddr, vRandom, nNew, nTried, TableOf(vvNew), TableOf(vvTried))
    }

    ghost predicate Shaped()
      reads this, vvNew, vvTried
    {
      && vvNew != vvTried
      && vvNew.Length0 == NEW_BUCKET_COUNT && vvNew.Length1 == BUCKET_SIZE && Cells(vvNew)
      && vvTried.Length0 == TRIED_BUCKET_COUNT && vvTried.Length1 == BUCKET_SIZE && Cells(vvTried)
    }

    ghost predicate Valid()
      reads this, vvNew, vvTried
    {
      Shaped() && Sound(h, Snap())
    }

    ghost function Contents(): Book
      reads this, vvNew, vvTried
    {
      View(Snap())
    }

    constructor (h: Oracle)
      ensures Valid() && this.h == h && Contents() == Book(map[], map[], map[])
      ensures Snap() == Tables(0, map[], map[], [], 0, 0, map[], map[]) && nLastGood == 1
      ensures fresh(vvNew) && fresh(vvTried)
    {
      hide Sound, View, Cells, TableOf;
      this.h := h;
      nIdCount, mapInfo, mapAddr, vRandom := 0, map[], map[], [];
      nTried, nNew, nLastGood := 0, 0, 1;
      vvNew := new int[NEW_BUCKET_COUNT, BUCKET_SIZE]((b, p) => -1);
      vvTried := new int[TRIED_BUCKET_COUNT, BUCKET_SIZE]((b, p) => -1);
      new;
      NoCells(vvNew);
      NoCells(vvTried);
      EmptySound(h);
    }

    /** The id of an address, if it is known. */
    method Find(a: NetAddr) returns (found: bool, id: nat)
      requires Valid()
      ensures found <==> a in Contents().entries
      ensures found ==> id in mapInfo && mapInfo[id].e.svc.ip == a && Contents().entries[a] == mapInfo[id].e
    {
      found, id := a in mapAddr, 0;
      if found {
        id := mapAddr[a];
      }
    }

    method SwapRandom(p1: nat, p2: nat)
      requires Ordered(mapInfo, vRandom) && p1 < |vRandom| && p2 < |vRandom|
      modifies this`mapInfo, this`vRandom
      ensures Snap() == SwapRandomT(old(Snap()), p1, p2)
    {
      hide Ordered, TableOf;
      if p1 == p2 {
        return;
      }
      OrderAt(mapInfo, vRandom, p1);
      OrderAt(mapInfo, vRandom, p2);
      var id1, id2 := vRandom[p1], vRandom[p2];
      assert id1 in mapInfo && id2 in mapInfo;
      mapInfo := mapInfo[id1 := mapInfo[id1].(randomPos := p2)];
      mapInfo := mapInfo[id2 := mapInfo[id2].(randomPos := p1)];
      vRandom := vRandom[p1 := id2];
      vRandom := vRandom[p2 := id1];
    }

    method Delete(id: nat)
      requires Ordered(mapInfo, vRandom)
      requires id in mapInfo && !mapInfo[id].inTried && mapInfo[id].refCount == 0
      modifies this`mapInfo, this`mapAddr, this`vRandom, this`nNew
      ensures Snap() == DeleteT(old(Snap()), id)
    {
      hide Ordered, TableOf, SwapRandomT;
      ghost var t := Snap();
      SwapToLast(t, id);
      SwapRandom(mapInfo[id].randomPos, |vRandom| - 1);
      vRandom := vRandom[..|vRandom| - 1];
      mapAddr := mapAddr - {mapInfo[id].e.svc.ip};
      mapInfo := mapInfo - {id};
      nNew := nNew - 1;
      assert Snap() == DeleteT(t, id);
    }

    method ClearNew(b: int, p: int, ghost limbo: set<nat>, ghost ahead: int)
      requires Shaped() && Inv(h, Snap(), limbo, ahead) && Known(mapInfo, TableOf(vvNew))
      requires 0 <= b < NEW_BUCKET_COUNT && 0 <= p < BUCKET_SIZE
      modifies this`mapInfo, this`mapAddr, this`vRandom, this`nNew, vvNew
      ensures Shaped() && Snap() == ClearNewT(old(Snap()), Slot(b, p))
      ensures Inv(h, Snap(), limbo, ahead) && Contents() == Displace(old(Contents()), Slot(b, p))
    {
      hide Inv, View, Ordered, TableOf, Cells, SubInfos, DeleteT, Displace, Known;
      ghost var t := Snap();
      ghost var s := Slot(b, p);
      InvOrdered(h, t, limbo, ahead);
      ClearNewKeeps(h, t, s, limbo, ahead);
      ReadCell(vvNew, b, p);
      if vvNew[b, p] != -1 {
        var id := vvNew[b, p];
        UnrefKeeps(h, t, s, limbo, ahead);
        assert mapInfo[id].refCount > 0;
        mapInfo := mapInfo[id := mapInfo[id].(refCount := mapInfo[id].refCount - 1)];
        Write(vvNew, b, p, -1);
        assert Snap() == UnrefT(t, s);
        if mapInfo[id].refCount == 0 {
          InvOrdered(h, Snap(), limbo + {id}, ahead + 1);
          LimboZero(h, Snap(), limbo + {id}, ahead + 1, id);
          Delete(id);
        }
      }
    }

    method EraseNew(id: nat)
      requires Valid() && id in mapInfo && !mapInfo[id].inTried
      modifies this`mapInfo, vvNew
      ensures Shaped() && Snap() == EraseT(old(Snap()), id)
    {
      hide Inv, View, Ordered, TableOf, Cells, Known, Early, IdRefs, NewPlaced;
      ghost var t := Snap();
      InvParts(h, t, {}, 0);
      EarlyEnds(h, t.info, t.newIds, id);
      RefCountAt(t.info, t.newIds, {}, id);
      for bucket := 0 to NEW_BUCKET_COUNT
        invariant Shaped() && TableOf(vvTried) == t.triedIds
        invariant TableOf(vvNew) == t.newIds - Early(t.newIds, id, bucket)
        invariant mapInfo == t.info[id := t.info[id].(refCount := |IdRefs(TableOf(vvNew), id)|)]
      {
        var pos := BucketPosition(h, true, bucket, mapInfo[id].e.svc);
        EarlyStep(h, t.info, t.newIds, id, bucket);
        ReadCell(vvNew, bucket, pos);
        if vvNew[bucket, pos] == id {
          EarlyRest(t.newIds, id, bucket, Slot(bucket, pos));
          Write(vvNew, bucket, pos, -1);
          mapInfo := mapInfo[id := mapInfo[id].(refCount := mapInfo[id].refCount - 1)];
        }
      }
      NoRefsLeft(t.newIds, id);
    }

    /** Enter an id that was evicted from the tried table into the new table again. */
    method Reenter(was: nat, ghost id: nat)
      requires Shaped() && Inv(h, Snap(), {id} + {was}, 0) && was in mapInfo && id in mapInfo && was != id
      modifies this`mapInfo, this`mapAddr, this`vRandom, this`nNew, vvNew
      ensures Shaped() && Inv(h, Snap(), {id}, 0)
      ensures id in mapInfo && mapInfo[id].e == old(mapInfo)[id].e
      ensures var e := old(mapInfo)[was].e;
              var us := NewSlot(h, e.svc, e.source);
              var c := Displace(old(Contents()), us);
              Contents() == c.(newTab := c.newTab[us := e.svc.ip])
    {
      hide Inv, View, Ordered, TableOf, Cells, Known, SubInfos, Displace, ClearNewT;
      ghost var t1 := Snap();
      ghost var L := {id} + {was};
      var ub := NewBucket(h, mapInfo[was].e.svc, mapInfo[was].e.source);
      var up := BucketPosition(h, true, ub, mapInfo[was].e.svc);
      InvKnown(h, t1, L, 0);
      InvOrdered(h, t1, L, 0);
      ClearNewKeeps(h, t1, Slot(ub, up), L, 0);
      ClearNew(ub, up, L, 0);
      ghost var t2 := Snap();
      LimboZero(h, t2, L, 0, was);
      LimboZero(h, t2, L, 0, id);
      SubAt(t2.info, t1.info, was);
      SubAt(t2.info, t1.info, id);
      ReadCell(vvNew, ub, up);
      assert vvNew[ub, up] == -1;

      SettleKeeps(h, t2, Slot(ub, up), was, L, 0);
      mapInfo := mapInfo[was := mapInfo[was].(refCount := 1)];
      Write(vvNew, ub, up, was);
      Recount(h, SettleT(t2, Slot(ub, up), was), 1, L - {was}, -1);
      nNew := nNew + 1;
      assert Snap() == SettleT(t2, Slot(ub, up), was).(nNew := t2.nNew + 1);
      assert L - {was} == {id};
    }

    /** Send the occupant of tried slot (b, p) back to its new slot; `id` stays in limbo. */
    method Evict(b: int, p: int, ghost id: nat)
      requires Shaped() && Inv(h, Snap(), {id}, 0)
      requires 0 <= b < TRIED_BUCKET_COUNT && 0 <= p < BUCKET_SIZE && vvTried[b, p] != -1
      modifies this`mapInfo, this`mapAddr, this`vRandom, this`nNew, this`nTried, vvNew, vvTried
      ensures Shaped() && Inv(h, Snap(), {id}, 0) && vvTried[b, p] == -1
      ensures id in mapInfo && id in old(mapInfo) && mapInfo[id].e == old(mapInfo)[id].e
      ensures var was := old(vvTried[b, p]);
              && was >= 0 && was in old(mapInfo)
              && var e := old(mapInfo)[was].e;
                 var us := NewSlot(h, e.svc, e.source);
                 var c := Displace(old(Contents()).(triedTab := old(Contents()).triedTab - {Slot(b, p)}), us);
                 Contents() == c.(newTab := c.newTab[us := e.svc.ip])
    {
      hide Inv, View, Ordered, TableOf, Cells, Known, Displace, NewSlot;
      ghost var t := Snap();
      ReadCell(vvTried, b, p);
      UntryKeeps(h, t, Slot(b, p), {id}, 0);
      LimboZero(h, t, {id}, 0, id);
      var was := vvTried[b, p];
      assert was in mapInfo;
      mapInfo := mapInfo[was := mapInfo[was].(inTried := false)];
      Write(vvTried, b, p, -1);
      nTried := nTried - 1;
      assert Snap() == UntryT(t, Slot(b, p));
      Reenter(was, id);
    }

    method EnterTried(b: int, p: int, id: nat)
      requires Shaped() && Inv(h, Snap(), {id}, 0) && id in mapInfo
      requires Slot(b, p) == TriedSlot(h, mapInfo[id].e.svc) && vvTried[b, p] == -1
      modifies this`mapInfo, this`nTried, vvTried
      ensures Valid()
      ensures Contents() == old(Contents()).(triedTab := old(Contents()).triedTab[Slot(b, p) := old(mapInfo)[id].e.svc.ip])
    {
      hide Inv, View, TableOf, Cells;
      ghost var t := Snap();
      ReadCell(vvTried, b, p);
      TryKeeps(h, t, Slot(b, p), id, {id}, 0);
      Write(vvTried, b, p, id);
      nTried := nTried + 1;
      mapInfo := mapInfo[id := mapInfo[id].(inTried := true)];
      assert Snap() == TryT(t, Slot(b, p), id);
      assert {id} - {id} == {};
    }

    /** Move an untried entry to the tried table, making room there first. */
    method MakeTried(id: nat)
      requires Valid() && id in mapInfo && !mapInfo[id].inTried
      modifies this`mapInfo, this`mapAddr, this`vRandom, this`nNew, this`nTried, vvNew, vvTried
      ensures Valid()
      ensures var a := old(mapInfo)[id].e.svc.ip;
              a in old(Contents()).entries && Contents() == Promote(h, old(Contents()), a)
    {
      hide Inv, View, Ordered, TableOf, Cells, Known, Displace, Promote, Refs, NewSlot, SameFlags, Indexed, TriedPlaced, NewPlaced, RefCounted, EraseT;
      ghost var t := Snap();
      ghost var a := mapInfo[id].e.svc.ip;
      InvParts(h, t, {}, 0);
      EntryAt(t, id);
      EraseKeeps(h, t, id, {}, 0);
      EraseAt(t, id);
      EraseNew(id);
      ghost var t1 := Snap();
      assert {} + {id} == {id};
      Recount(h, t1, -1, {id}, 1);
      nNew := nNew - 1;
      ghost var t2 := Snap();
      assert t2 == t1.(nNew := t1.nNew - 1);
      LimboZero(h, t2, {id}, 0, id);
      assert mapInfo[id].refCount == 0;

      var kb := TriedBucket(h, mapInfo[id].e.svc);
      var kp := BucketPosition(h, false, kb, mapInfo[id].e.svc);
      ghost var ts := Slot(kb, kp);
      ReadCell(vvTried, kb, kp);
      if vvTried[kb, kp] != -1 {
        TriedEntryAt(h, t, ts);
        PromoteSteps(h, View(t), a);
        Evict(kb, kp, id);
      } else {
        PromoteFree(h, t, a, ts);
      }
      assert vvTried[kb, kp] == -1;
      EnterTried(kb, kp, id);
    }

    /** Replace the entry of `id` by one for the same service. */
    method Update(id: nat, e: Entry)
      requires Valid() && id in mapInfo && e.svc == mapInfo[id].e.svc
      modifies this`mapInfo
      ensures Valid() && mapInfo == old(mapInfo)[id := old(mapInfo)[id].(e := e)]
      ensures Contents() == old(Contents()).(entries := old(Contents()).entries[e.svc.ip := e])
    {
      hide Inv, View, TableOf, Cells;
      TouchKeeps(h, Snap(), id, e, {}, 0);
      mapInfo := mapInfo[id := mapInfo[id].(e := e)];
    }

    method Good(svc: Service, time: int, roll: nat)
      requires Valid()
      modifies this, vvNew, vvTried
      ensures Valid() && nLastGood == time
      ensures Contents() == AddrBook.Good(h, old(Contents()), svc, time)
    {
      hide Inv, View, TableOf, Cells, Promote, Indexed, Ordered, TriedPlaced, NewPlaced, RefCounted, IsTried;
      nLastGood := time;
      var found, id := Find(svc.ip);
      if !found {
        return;
      }
      if mapInfo[id].e.svc != svc {
        return;
      }
      Update(id, MarkGood(mapInfo[id].e, time));
      InvParts(h, Snap(), {}, 0);
      TriedAgree(h, Snap(), id);
      if mapInfo[id].inTried {
        return;
      }
      var uBucket := FindBucket(id, roll);
      assert uBucket != -1;
      MakeTried(id);
    }

    /** Whether `id` sits in new bucket `b`, at its own position there. */
    predicate Holds(b: int, id: nat)
      requires 0 <= b < vvNew.Length0 && vvNew.Length1 == BUCKET_SIZE && id in mapInfo
      reads this, vvNew
    {
      vvNew[b, BucketPosition(h, true, b, mapInfo[id].e.svc)] == id
    }

    /** Look for a new bucket that holds `id`, starting anywhere; an untried entry always has one. */
    method FindBucket(id: nat, roll: nat) returns (uBucket: int)
      requires Valid() && id in mapInfo && !mapInfo[id].inTried
      ensures 0 <= uBucket < NEW_BUCKET_COUNT && Holds(uBucket, id)
    {
      hide Inv, View, TableOf, Cells;
      var rnd := roll % NEW_BUCKET_COUNT;
      uBucket := -1;
      var n := 0;
      while n < NEW_BUCKET_COUNT && uBucket == -1
        invariant 0 <= n <= NEW_BUCKET_COUNT && -1 <= uBucket < NEW_BUCKET_COUNT
        invariant uBucket >= 0 ==> Holds(uBucket, id)
        invariant uBucket == -1 ==> forall m :: 0 <= m < n ==> !Holds(Rotate(m, rnd), id)
      {
        var b := Rotate(n, rnd);
        if Holds(b, id) {
          uBucket := b;
        }
        n := n + 1;
      }
      ghost var b := SomeBucket(h, Snap(), id);
      ReadCell(vvNew, b, BucketPosition(h, true, b, mapInfo[id].e.svc));
      RotateOnto(b, rnd);
    }

    method Attempt(svc: Service, fCountFailure: bool, time: int)
      requires Valid()
      modifies this`mapInfo
      ensures Valid()
      ensures var good := nLastGood;
              Contents() == Touch(old(Contents()), svc, e => MarkAttempt(e, fCountFailure, time, good))
    {
      hide Inv, View, TableOf, Cells;
      var found, id := Find(svc.ip);
      if !found {
        return;
      }
      if mapInfo[id].e.svc != svc {
        return;
      }
      var e := mapInfo[id].e.(lastTry := time);
      if fCountFailure && e.lastCountAttempt < nLastGood {
        e := e.(lastCountAttempt := time, attempts := e.attempts + 1);
      }
      Update(id, e);
    }

    method Connected(svc: Service, time: int)
      requires Valid()
      modifies this`mapInfo
      ensures Valid() && Contents() == Touch(old(Contents()), svc, e => MarkConnected(e, time))
    {
      hide Inv, View, TableOf, Cells;
      var found, id := Find(svc.ip);
      if !found {
        return;
      }
      if mapInfo[id].e.svc != svc {
        return;
      }
      if time - mapInfo[id].e.time > 20 * 60 {
        Update(id, mapInfo[id].e.(time := time));
      } else {
        TouchSame(Contents(), svc, e => MarkConnected(e, time));
      }
    }

    method SetServices(svc: Service, services: bv64)
      requires Valid()
      modifies this`mapInfo
      ensures Valid() && Contents() == Touch(old(Contents()), svc, (e: Entry) => e.(services := services))
    {
      hide Inv, View, TableOf, Cells;
      var found, id := Find(svc.ip);
      if !found {
        return;
      }
      if mapInfo[id].e.svc != svc {
        return;
      }
      Update(id, mapInfo[id].e.(services := services));
    }

    /** Settle a known, untried `id` in new slot (b, p), overwriting whatever is there. */
    method Overwrite(b: int, p: int, id: nat, ghost limbo: set<nat>, ghost ahead: int)
      requires Shaped() && Inv(h, Snap(), limbo, ahead) && id in mapInfo && !mapInfo[id].inTried
      requires mapInfo[id].refCount < NEW_BUCKETS_PER_ADDRESS
      requires (limbo == {} && ahead == 0) || (limbo == {id} && ahead == 1)
      requires 0 <= b < NEW_BUCKET_COUNT && p == BucketPosition(h, true, b, mapInfo[id].e.svc)
      requires vvNew[b, p] != id
      modifies this`mapInfo, this`mapAddr, this`vRandom, this`nNew, vvNew
      ensures Valid() && Contents() == Settle(old(Contents()), Slot(b, p), old(mapInfo)[id].e.svc.ip)
    {
      hide Inv, View, Ordered, TableOf, Cells, Known, Displace, ClearNewT;
      ghost var t, s := Snap(), Slot(b, p);
      InvKnown(h, t, limbo, ahead);
      InvOrdered(h, t, limbo, ahead);
      ClearNewKeeps(h, t, s, limbo, ahead);
      ReadCell(vvNew, b, p);
      ClearNewAt(h, t, s, id, limbo, ahead);
      ClearNew(b, p, limbo, ahead);
      ghost var u := Snap();
      SettleKeeps(h, u, s, id, limbo, ahead);
      mapInfo := mapInfo[id := mapInfo[id].(refCount := mapInfo[id].refCount + 1)];
      Write(vvNew, b, p, id);
      assert Snap() == SettleT(u, s, id);
      assert limbo - {id} == {};
    }

    /** A known address looks for a place in the new bucket that `source` prescribes. */
    method Place(id: nat, source: NetAddr, later: int, ghost limbo: set<nat>, ghost ahead: int)
      requires Shaped() && Inv(h, Snap(), limbo, ahead) && id in mapInfo && !mapInfo[id].inTried
      requires mapInfo[id].refCount < NEW_BUCKETS_PER_ADDRESS
      requires (limbo == {} && ahead == 0) || (limbo == {id} && ahead == 1)
      modifies this`mapInfo, this`mapAddr, this`vRandom, this`nNew, vvNew
      ensures Valid()
      ensures var a := old(mapInfo)[id].e.svc.ip;
              && a in old(Contents()).entries
              && Contents() == Relocate(h, old(Contents()), a, source, later, id in limbo)
    {
      hide Inv, View, Ordered, TableOf, Cells, Indexed, TriedPlaced, NewPlaced, RefCounted, Settle, Refs, IdRefs;
      ghost var t, a := Snap(), mapInfo[id].e.svc.ip;
      InvParts(h, t, limbo, ahead);
      EntryAt(t, id);
      UntriedCount(h, t, limbo, ahead, id);
      var b := NewBucket(h, mapInfo[id].e.svc, source);
      var p := BucketPosition(h, true, b, mapInfo[id].e.svc);
      ReadCell(vvNew, b, p);
      NewEntryAt(h, t, Slot(b, p), limbo, ahead);
      NewEntryIs(h, t, Slot(b, p), id, limbo, ahead);
      if Slot(b, p) in t.newIds {
        PlacedAt(h, t.info, t.newIds, limbo, Slot(b, p));
      }
      if vvNew[b, p] != id {
        var fInsert := vvNew[b, p] == -1;
        if !fInsert {
          var existing := mapInfo[vvNew[b, p]];
          if IsTerrible(existing.e, later) || (existing.refCount > 1 && mapInfo[id].refCount == 0) {
            fInsert := true;
          }
        }
        if fInsert {
          Overwrite(b, p, id, limbo, ahead);
        } else {
          if mapInfo[id].refCount == 0 {
            DeleteKeeps(h, Snap(), id, limbo, ahead);
            Delete(id);
            assert limbo - {id} == {};
          }
        }
      }
    }

    /** Make an entry for an unknown address, in no table yet. */
    method Create(e: Entry) returns (id: nat)
      requires Valid() && e.svc.ip !in mapAddr
      modifies this`nIdCount, this`mapInfo, this`mapAddr, this`vRandom
      ensures Shaped() && Inv(h, Snap(), {id}, 0)
      ensures id in mapInfo && mapInfo[id].e == e && !mapInfo[id].inTried && mapInfo[id].refCount == 0
      ensures Contents() == old(Contents()).(entries := old(Contents()).entries[e.svc.ip := e])
    {
      hide Inv, View, TableOf, Cells;
      ghost var t := Snap();
      CreateKeeps(h, t, e, {}, 0);
      assert {} + {nIdCount} == {nIdCount};
      id := nIdCount;
      nIdCount := nIdCount + 1;
      mapInfo := mapInfo[id := Info(e, 0, false, -1)];
      mapAddr := mapAddr[e.svc.ip := id];
      mapInfo := mapInfo[id := mapInfo[id].(randomPos := |vRandom|)];
      vRandom := vRandom + [id];
      assert Snap() == CreateT(t, e);
    }

    method Add(addr: Address, source: NetAddr, penalty: int, now: int, later: int, roll: nat) returns (fNew: bool)
      requires Valid()
      modifies this, vvNew
      ensures Valid() && nLastGood == old(nLastGood)
      ensures (Contents(), fNew) == AddrBook.Add(h, old(Contents()), addr, source, penalty, now, later, roll)
    {
      hide Inv, View, TableOf, Cells, Indexed, Ordered, TriedPlaced, NewPlaced, RefCounted, Relocate, IsTried, Refs, IdRefs, Known, Merged;
      fNew := false;
      if !h.routable(addr.svc) {
        return;
      }
      var found, id := Find(addr.svc.ip);
      var p := if addr.svc.ip == source then 0 else penalty;
      if found {
        Update(id, Refresh(mapInfo[id].e, addr, p, now));
        ghost var t := Snap();
        InvParts(h, t, {}, 0);
        InvKnown(h, t, {}, 0);
        TriedAgree(h, t, id);
        RefsAgree(t, id);
        RefCountAt(t.info, t.newIds, {}, id);
        if addr.time == 0 || (mapInfo[id].e.time != 0 && addr.time <= mapInfo[id].e.time) {
          return;
        }
        if mapInfo[id].inTried {
          return;
        }
        if mapInfo[id].refCount == NEW_BUCKETS_PER_ADDRESS {
          return;
        }
        var nFactor := 1;
        for n := 0 to mapInfo[id].refCount
          invariant nFactor == Numbers.Pow2(n)
        {
          nFactor := nFactor * 2;
        }
        if nFactor > 1 && roll % nFactor != 0 {
          return;
        }
        UntriedCount(h, t, {}, 0, id);
        Place(id, source, later, {}, 0);
      } else {
        KnownAddr(h, Snap(), addr.svc.ip);
        id := Create(NewEntry(addr, source, p));
        Recount(h, Snap(), 1, {id}, 0);
        nNew := nNew + 1;
        fNew := true;
        Place(id, source, later, {id}, 1);
      }
    }

    /** A random selection of good entries; the tables do not change visibly. */
    method GetAddr(now: int, rolls: nat -> nat) returns (addrs: seq<Address>)
      requires Valid()
      modifies this`mapInfo, this`vRandom
      ensures Valid() && Contents() == old(Contents())
      ensures |addrs| <= GETADDR_MAX && |addrs| * 100 <= GETADDR_MAX_PCT * |Contents().entries|
      ensures forall k :: 0 <= k < |addrs| ==> Offered(Contents(), addrs[k], now)
      ensures forall j, k :: 0 <= j < k < |addrs| ==> addrs[j].svc.ip != addrs[k].svc.ip
      ensures |addrs| == Quota(|Contents().entries|)
              || forall a :: a in Contents().entries && !IsTerrible(Contents().entries[a], now) ==>
                   exists k :: 0 <= k < |addrs| && addrs[k].svc.ip == a
    {
      hide Inv, View, TableOf, Cells, Ordered, SwapRandomT, Line, IsTerrible, Offered, Picks;
      var nNodes := GETADDR_MAX_PCT * |vRandom| / 100;
      if nNodes > GETADDR_MAX {
        nNodes := GETADDR_MAX;
      }
      addrs := [];
      var n := 0;
      InvOrdered(h, Snap(), {}, 0);
      PicksNone(Line(mapInfo, vRandom), now);
      while n < |vRandom| && |addrs| < nNodes
        invariant Valid() && Contents() == old(Contents()) && |vRandom| == old(|vRandom|)
        invariant 0 <= n <= |vRandom| && |addrs| <= nNodes && Ordered(mapInfo, vRandom)
        invariant addrs == Picks(Line(mapInfo, vRandom)[..n], now)
      {
        var pos := rolls(n) % (|vRandom| - n) + n;
        LineSwap(Snap(), n, pos);
        SwapRandomKeeps(h, Snap(), n, pos, {}, 0);
        SwapRandom(n, pos);
        OrderAt(mapInfo, vRandom, n);
        assert vRandom[n] in mapInfo;
        PicksMore(Line(mapInfo, vRandom), n, now);
        var ai := mapInfo[vRandom[n]].e;
        if !IsTerrible(ai, now) {
          addrs := addrs + [Address(ai.svc, ai.time, ai.services)];
        }
        n := n + 1;
      }
      EntriesCount(h, Snap());
      PicksOffered(h, Snap(), n, now);
    }
  }
}
