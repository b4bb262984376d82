/**
 Whole runs of the address manager, stated on the book: what every operation keeps, what an
 operation may make the manager forget, and when the recorded times stay in order.
 */
module AddrRuns {
  import opened AddrBook

  // ---------- consistency is kept by every operation ----------

  ghost predicate Named(b: Book) {
    forall a :: a in b.entries ==> b.entries[a].svc.ip == a
  }

  ghost predicate TriedOk(h: Oracle, b: Book) {
    forall s :: s in b.triedTab ==> b.triedTab[s] in b.entries && s == TriedSlot(h, b.entries[b.triedTab[s]].svc)
  }

  ghost predicate NewOk(h: Oracle, b: Book) {
    forall s :: s in b.newTab ==>
      && b.newTab[s] in b.entries && 0 <= s.bucket < NEW_BUCKET_COUNT
      && s.pos == BucketPosition(h, true, s.bucket, b.entries[b.newTab[s]].svc)
  }

  ghost predicate Housed(b: Book, a: NetAddr) {
    if IsTried(b, a) then Refs(b, a) == {} else 1 <= |Refs(b, a)| <= NEW_BUCKETS_PER_ADDRESS
  }

  ghost predicate Homeless(b: Book, a: NetAddr) {
    a in b.entries && !IsTried(b, a) && Refs(b, a) == {}
  }

  /** Consistency, except that the addresses in `limbo` are in no table. */
  ghost predicate Inv(h: Oracle, b: Book, limbo: set<NetAddr>) {
    && Named(b) && TriedOk(h, b) && NewOk(h, b)
    && (forall a :: a in limbo ==> Homeless(b, a))
    && (forall a :: a in b.entries && a !in limbo ==> Housed(b, a))
  }

  lemma InvIsConsistent(h: Oracle, b: Book)
    ensures Inv(h, b, {}) <==> Consistent(h, b)
  {
  }

  lemma DisplaceRefs(b: Book, s: Slot, a: NetAddr)
    requires s in b.newTab
    ensures Refs(Displace(b, s), a) == Refs(b, a) - {s}
    ensures IsTried(Displace(b, s), a) <==> IsTried(b, a)
    ensures b.newTab[s] != a ==> s !in Refs(b, a)
  {
  }

  lemma DisplaceKeeps(h: Oracle, b: Book, s: Slot, limbo: set<NetAddr>)
    requires Inv(h, b, limbo)
    ensures Inv(h, Displace(b, s), limbo)
    ensures Displace(b, s).triedTab == b.triedTab && s !in Displace(b, s).newTab
    ensures s in b.newTab ==> b.newTab[s] in b.entries && b.newTab[s] !in limbo && !IsTried(b, b.newTab[s])
    ensures Displace(b, s).entries == if s in b.newTab && Refs(b, b.newTab[s]) == {s} then b.entries - {b.newTab[s]} else b.entries
  {
    if s in b.newTab {
      var x, u := b.newTab[s], Displace(b, s);
      assert s in Refs(b, x);
      assert x in limbo ==> Homeless(b, x);
      assert Housed(b, x);
      DisplaceRefs(b, s, x);
      assert Refs(b, x) == {s} <==> Refs(b, x) - {s} == {};
      forall a | a in b.entries && a != x
        ensures Refs(u, a) == Refs(b, a) && (IsTried(u, a) <==> IsTried(b, a))
      {
        DisplaceRefs(b, s, a);
      }
      assert Named(u) && TriedOk(h, u) && NewOk(h, u);
      forall a | a in limbo
        ensures Homeless(u, a)
      {
        assert Homeless(b, a);
      }
      forall a | a in u.entries && a !in limbo
        ensures Housed(u, a)
      {
        assert Housed(b, a);
      }
    }
  }

  /** Entering an untried address with room for one more slot into a free slot of its own. */
  lemma EnterKeeps(h: Oracle, b: Book, s: Slot, a: NetAddr, limbo: set<NetAddr>)
    requires Inv(h, b, limbo) && a in b.entries && !IsTried(b, a) && s !in b.newTab
    requires |Refs(b, a)| < NEW_BUCKETS_PER_ADDRESS
    requires 0 <= s.bucket < NEW_BUCKET_COUNT && s.pos == BucketPosition(h, true, s.bucket, b.entries[a].svc)
    ensures Inv(h, b.(newTab := b.newTab[s := a]), limbo - {a})
  {
    var u := b.(newTab := b.newTab[s := a]);
    hide Named, TriedOk, NewOk, Refs, IsTried;
    EnterTables(h, b, s, a);
    forall x | x in b.entries
      ensures (IsTried(u, x) <==> IsTried(b, x)) && Refs(u, x) == if x == a then Refs(b, a) + {s} else Refs(b, x)
      ensures s !in Refs(b, x)
    {
      EnterRefs(b, s, a, x);
    }
    forall x | x in limbo - {a}
      ensures Homeless(u, x)
    {
      assert Homeless(b, x);
    }
    forall x | x in u.entries && x !in limbo - {a}
      ensures Housed(u, x)
    {
      assert x != a ==> Housed(b, x);
    }
  }

  lemma EnterTables(h: Oracle, b: Book, s: Slot, a: NetAddr)
    requires Named(b) && TriedOk(h, b) && NewOk(h, b) && a in b.entries
    requires 0 <= s.bucket < NEW_BUCKET_COUNT && s.pos == BucketPosition(h, true, s.bucket, b.entries[a].svc)
    ensures var u := b.(newTab := b.newTab[s := a]); Named(u) && TriedOk(h, u) && NewOk(h, u)
  {
  }

  lemma EnterRefs(b: Book, s: Slot, a: NetAddr, x: NetAddr)
    requires s !in b.newTab
    ensures var u := b.(newTab := b.newTab[s := a]);
            && (IsTried(u, x) <==> IsTried(b, x))
            && Refs(u, x) == (if x == a then Refs(b, a) + {s} else Refs(b, x)) && s !in Refs(b, x)
  {
  }

  /** Changing the statistics of an entry. */
  lemma TouchKeeps(h: Oracle, b: Book, a: NetAddr, e: Entry)
    requires Inv(h, b, {}) && a in b.entries && e.svc == b.entries[a].svc
    ensures var u := b.(entries := b.entries[a := e]);
            Inv(h, u, {}) && Refs(u, a) == Refs(b, a) && (IsTried(u, a) <==> IsTried(b, a))
  {
    var u := b.(entries := b.entries[a := e]);
    hide Named, TriedOk, NewOk, Refs, IsTried;
    TouchTables(h, b, a, e);
    forall x | x in u.entries
      ensures Housed(u, x)
    {
      SameTables(b, u, x);
      assert x in b.entries && Housed(b, x);
    }
    SameTables(b, u, a);
  }

  lemma TouchTables(h: Oracle, b: Book, a: NetAddr, e: Entry)
    requires Named(b) && TriedOk(h, b) && NewOk(h, b) && a in b.entries && e.svc == b.entries[a].svc
    ensures var u := b.(entries := b.entries[a := e]); Named(u) && TriedOk(h, u) && NewOk(h, u)
  {
  }

  lemma SameTables(b: Book, u: Book, x: NetAddr)
    requires u.newTab == b.newTab && u.triedTab == b.triedTab
    ensures Refs(u, x) == Refs(b, x) && (IsTried(u, x) <==> IsTried(b, x))
  {
  }

  lemma EraseKeeps(h: Oracle, b: Book, a: NetAddr)
    requires Inv(h, b, {}) && a in b.entries && !IsTried(b, a)
    ensures Inv(h, b.(newTab := b.newTab - Refs(b, a)), {a})
  {
    var u := b.(newTab := b.newTab - Refs(b, a));
    assert Refs(u, a) == {};
    assert IsTried(u, a) <==> IsTried(b, a);
    forall x | x in u.entries && x != a
      ensures Housed(u, x)
    {
      assert Refs(u, x) == Refs(b, x) && (IsTried(u, x) <==> IsTried(b, x)) && Housed(b, x);
    }
  }

  lemma UntryKeeps(h: Oracle, b: Book, s: Slot, a: NetAddr)
    requires Inv(h, b, {a}) && s in b.triedTab
    ensures b.triedTab[s] != a && Inv(h, b.(triedTab := b.triedTab - {s}), {a, b.triedTab[s]})
  {
    var u, was := b.(triedTab := b.triedTab - {s}), b.triedTab[s];
    assert Homeless(b, a);
    assert IsTried(b, was) && Housed(b, was);
    assert forall r :: r in b.triedTab && b.triedTab[r] == was ==> r == s;
    assert Homeless(u, was) && Homeless(u, a);
    forall x | x in u.entries && x !in {a, was}
      ensures Housed(u, x)
    {
      assert Refs(u, x) == Refs(b, x) && Housed(b, x);
      if IsTried(b, x) {
        var r :| r in b.triedTab && b.triedTab[r] == x;
        assert r in u.triedTab && u.triedTab[r] == x;
      }
    }
  }

  lemma TryKeeps(h: Oracle, b: Book, s: Slot, a: NetAddr)
    requires Inv(h, b, {a}) && s !in b.triedTab && a in b.entries && s == TriedSlot(h, b.entries[a].svc)
    ensures var u := b.(triedTab := b.triedTab[s := a]); Inv(h, u, {}) && IsTried(u, a)
  {
    var u := b.(triedTab := b.triedTab[s := a]);
    assert Homeless(b, a);
    assert u.triedTab[s] == a;
    assert IsTried(u, a) && Refs(u, a) == Refs(b, a);
    forall x | x in u.entries && x != a
      ensures Housed(u, x)
    {
      assert Refs(u, x) == Refs(b, x) && Housed(b, x);
      if IsTried(b, x) {
        var r :| r in b.triedTab && b.triedTab[r] == x;
        assert r in u.triedTab && u.triedTab[r] == x;
      }
    }
  }

  /**
   Promotion keeps consistency, makes the address tried, keeps every tried address known, and
   forgets at most the one untried address whose only slot the evicted entry took over.
   */
  lemma PromoteKeeps(h: Oracle, b: Book, a: NetAddr)
    requires Inv(h, b, {}) && a in b.entries && !IsTried(b, a)
    ensures var u := Promote(h, b, a);
            && Inv(h, u, {}) && IsTried(u, a)
            && (forall x :: IsTried(b, x) ==> x in u.entries)
            && (u.entries == b.entries || exists x :: Forgettable(b, x) && x != a && u.entries == b.entries - {x})
  {
    hide Inv, Displace, Refs, IsTried;
    var ts := TriedSlot(h, b.entries[a].svc);
    var b1 := b.(newTab := b.newTab - Refs(b, a));
    EraseKeeps(h, b, a);
    TriedKnown(h, b, {});
    if ts in b.triedTab {
      var was := b.triedTab[ts];
      PromoteSteps(h, b, a);
      UntryKeeps(h, b1, ts, a);
      var us := NewSlot(h, b.entries[was].svc, b.entries[was].source);
      var b2 := b1.(triedTab := b1.triedTab - {ts});
      DisplaceKeeps(h, b2, us, {a, was});
      var b3 := Displace(b2, us);
      LimboFacts(h, b3, {a, was}, was);
      LimboFacts(h, b3, {a, was}, a);
      EnterKeeps(h, b3, us, was, {a, was});
      assert {a, was} - {was} == {a};
      var b4 := b3.(newTab := b3.newTab[us := was]);
      TryKeeps(h, b4, ts, a);
      Forgotten(h, b, a, ts, us);
    } else {
      TryKeeps(h, b1, ts, a);
    }
  }

  /** An address that can be forgotten: untried, with a single new slot. */
  ghost predicate Forgettable(b: Book, x: NetAddr) {
    x in b.entries && !IsTried(b, x) && |Refs(b, x)| == 1
  }

  lemma TriedKnown(h: Oracle, b: Book, limbo: set<NetAddr>)
    requires Inv(h, b, limbo)
    ensures forall x :: IsTried(b, x) ==> x in b.entries
    ensures forall s :: s in b.triedTab ==> b.triedTab[s] in b.entries
  {
  }

  lemma NewKnown(h: Oracle, b: Book, s: Slot)
    requires Inv(h, b, {}) && s in b.newTab
    ensures b.newTab[s] in b.entries
  {
  }

  lemma LimboFacts(h: Oracle, b: Book, limbo: set<NetAddr>, a: NetAddr)
    requires Inv(h, b, limbo) && a in limbo
    ensures a in b.entries && !IsTried(b, a) && |Refs(b, a)| == 0
  {
    assert Homeless(b, a);
  }

  lemma Forgotten(h: Oracle, b: Book, a: NetAddr, ts: Slot, us: Slot)
    requires Inv(h, b, {}) && a in b.entries && !IsTried(b, a)
    ensures var b2 := b.(newTab := b.newTab - Refs(b, a), triedTab := b.triedTab - {ts});
            var u := Displace(b2, us);
            u.entries == b.entries || exists x :: Forgettable(b, x) && x != a && u.entries == b.entries - {x}
  {
    var b2 := b.(newTab := b.newTab - Refs(b, a), triedTab := b.triedTab - {ts});
    var u := Displace(b2, us);
    if us in b2.newTab {
      var x := b2.newTab[us];
      assert x != a;
      assert us in Refs(b, x);
      assert Refs(b2, x) == Refs(b, x);
      assert Housed(b, x);
      if Refs(u, x) == {} {
        DisplaceRefs(b2, us, x);
        assert Refs(b, x) == {us};
        assert Forgettable(b, x);
      }
    }
  }

  /**
   Marking an address good keeps consistency; a known service becomes tried, every tried
   address stays known and at most one untried address with a single slot is forgotten.
   */
  lemma GoodKeeps(h: Oracle, b: Book, svc: Service, time: int)
    requires Inv(h, b, {})
    ensures var u := Good(h, b, svc, time);
            && Inv(h, u, {})
            && (svc.ip in b.entries && b.entries[svc.ip].svc == svc ==>
                  IsTried(u, svc.ip) && svc.ip in u.entries && u.entries[svc.ip] == MarkGood(b.entries[svc.ip], time))
            && (forall x :: IsTried(b, x) ==> x in u.entries)
            && (u.entries.Keys == b.entries.Keys || exists x :: Forgettable(b, x) && u.entries.Keys == b.entries.Keys - {x})
            && (forall x :: x in u.entries && x != svc.ip ==> u.entries[x] == b.entries[x])
  {
    hide Inv, Refs, IsTried, Promote;
    TriedKnown(h, b, {});
    if svc.ip in b.entries && b.entries[svc.ip].svc == svc {
      var a, e := svc.ip, MarkGood(b.entries[svc.ip], time);
      var b1 := b.(entries := b.entries[a := e]);
      TouchKeeps(h, b, a, e);
      forall x
        ensures (IsTried(b1, x) <==> IsTried(b, x)) && Refs(b1, x) == Refs(b, x)
      {
        SameTables(b, b1, x);
      }
      if !IsTried(b1, a) {
        PromoteKeeps(h, b1, a);
        if Promote(h, b1, a).entries != b1.entries {
          var x :| Forgettable(b1, x) && x != a && Promote(h, b1, a).entries == b1.entries - {x};
          assert Forgettable(b, x);
        }
      }
    }
  }

  lemma SettleInv(h: Oracle, b: Book, s: Slot, a: NetAddr, limbo: set<NetAddr>)
    requires Inv(h, b, limbo) && a in b.entries && !IsTried(b, a) && |Refs(b, a)| < NEW_BUCKETS_PER_ADDRESS
    requires limbo <= {a}
    requires s in b.newTab ==> b.newTab[s] != a
    requires 0 <= s.bucket < NEW_BUCKET_COUNT && s.pos == BucketPosition(h, true, s.bucket, b.entries[a].svc)
    ensures var u := Settle(b, s, a);
            && Inv(h, u, {}) && u.triedTab == b.triedTab && a in u.entries
            && (u.entries == b.entries || exists x :: Forgettable(b, x) && x != a && u.entries == b.entries - {x})
  {
    hide Inv, Displace, Refs, IsTried;
    DisplaceKeeps(h, b, s, limbo);
    var u := Displace(b, s);
    SettleRefs(b, s, a);
    EnterKeeps(h, u, s, a, limbo);
    assert limbo - {a} == {};
    if u.entries != b.entries {
      var x := b.newTab[s];
      assert Forgettable(b, x) && x != a && u.entries == b.entries - {x};
    }
  }

  lemma SettleRefs(b: Book, s: Slot, a: NetAddr)
    requires s in b.newTab ==> b.newTab[s] != a
    ensures Refs(Displace(b, s), a) == Refs(b, a) && (IsTried(Displace(b, s), a) <==> IsTried(b, a))
  {
    if s in b.newTab {
      DisplaceRefs(b, s, a);
    }
  }

  /**
   Adding an address keeps consistency and the tried table, and forgets at most one other
   address, an untried one with a single slot.
   */
  lemma AddKeeps(h: Oracle, b: Book, addr: Address, source: NetAddr, penalty: int, now: int, later: int, roll: nat)
    requires Inv(h, b, {})
    ensures var (u, fNew) := Add(h, b, addr, source, penalty, now, later, roll);
            && Inv(h, u, {}) && u.triedTab == b.triedTab
            && (fNew <==> h.routable(addr.svc) && addr.svc.ip !in b.entries)
            && (forall x :: IsTried(b, x) ==> x in u.entries)
            && (addr.svc.ip in b.entries ==> addr.svc.ip in u.entries)
            && (forall x :: x in u.entries && x != addr.svc.ip ==> x in b.entries && u.entries[x] == b.entries[x])
            && (b.entries.Keys <= u.entries.Keys
                || exists x :: Forgettable(b, x) && x != addr.svc.ip && u.entries.Keys == b.entries.Keys + {addr.svc.ip} - {x})
  {
    hide Inv, Displace, Refs, IsTried, Settle, Refresh, Yields;
    TriedKnown(h, b, {});
    var a := addr.svc.ip;
    var p := if a == source then 0 else penalty;
    if h.routable(addr.svc) {
      if a in b.entries {
        var e := Refresh(b.entries[a], addr, p, now);
        RefreshKeepsService(b.entries[a], addr, p, now);
        var b1 := b.(entries := b.entries[a := e]);
        TouchKeeps(h, b, a, e);
        if Eligible(b1, a, addr.time, roll) {
          RelocateKnown(h, b, b1, a, source, later);
        }
      } else {
        AddNew(h, b, a, NewEntry(addr, source, p), source, later);
      }
    }
  }

  lemma RefreshKeepsService(e: Entry, addr: Address, p: int, now: int)
    ensures Refresh(e, addr, p, now).svc == e.svc
  {
  }

  lemma RelocateKnown(h: Oracle, b: Book, b1: Book, a: NetAddr, source: NetAddr, later: int)
    requires Inv(h, b1, {}) && a in b.entries && b1 == b.(entries := b1.entries)
    requires b1.entries.Keys == b.entries.Keys && a in b1.entries && !IsTried(b1, a)
    requires |Refs(b1, a)| != NEW_BUCKETS_PER_ADDRESS
    ensures var u := Relocate(h, b1, a, source, later, false);
            && Inv(h, u, {}) && u.triedTab == b.triedTab && a in u.entries
            && (forall x :: x in u.entries ==> x in b1.entries && u.entries[x] == b1.entries[x])
            && (forall x :: IsTried(b, x) ==> x in u.entries)
            && (u.entries == b1.entries || exists x :: Forgettable(b, x) && x != a && u.entries == b1.entries - {x})
  {
    hide Inv, Displace, Refs, IsTried, Settle, Yields;
    forall x
      ensures (IsTried(b1, x) <==> IsTried(b, x)) && Refs(b1, x) == Refs(b, x)
    {
      SameTables(b, b1, x);
    }
    TriedKnown(h, b1, {});
    HousedFacts(h, b1, a);
    var s := NewSlot(h, b1.entries[a].svc, source);
    if !(s in b1.newTab && b1.newTab[s] == a) && Yields(b1, s, later, false) {
      SettleInv(h, b1, s, a, {});
      var u := Settle(b1, s, a);
      if u.entries != b1.entries {
        var x :| Forgettable(b1, x) && x != a && u.entries == b1.entries - {x};
        assert Forgettable(b, x);
      }
    }
  }

  lemma HousedFacts(h: Oracle, b: Book, a: NetAddr)
    requires Inv(h, b, {}) && a in b.entries && !IsTried(b, a)
    ensures 1 <= |Refs(b, a)| <= NEW_BUCKETS_PER_ADDRESS
  {
    assert Housed(b, a);
  }

  lemma NewcomerInv(h: Oracle, b: Book, a: NetAddr, e: Entry)
    requires Inv(h, b, {}) && a !in b.entries && e.svc.ip == a
    ensures var b1 := b.(entries := b.entries[a := e]);
            Inv(h, b1, {a}) && !IsTried(b1, a) && Refs(b1, a) == {}
  {
    var b1 := b.(entries := b.entries[a := e]);
    forall x | x in b.entries
      ensures Housed(b1, x)
    {
      assert Housed(b, x);
      SameTables(b, b1, x);
    }
    assert Homeless(b1, a);
  }

  lemma AddNew(h: Oracle, b: Book, a: NetAddr, e: Entry, source: NetAddr, later: int)
    requires Inv(h, b, {}) && a !in b.entries && e.svc.ip == a
    ensures var b1 := b.(entries := b.entries[a := e]);
            var u := Relocate(h, b1, a, source, later, true);
            && Inv(h, u, {}) && u.triedTab == b.triedTab
            && (forall x :: IsTried(b, x) ==> x in u.entries)
            && (forall x :: x in u.entries && x != a ==> x in b.entries && u.entries[x] == b.entries[x])
            && (b.entries.Keys <= u.entries.Keys
                || exists x :: Forgettable(b, x) && x != a && u.entries.Keys == b.entries.Keys + {a} - {x})
  {
    hide Inv, Displace, Refs, IsTried, Settle, Yields;
    NewcomerInv(h, b, a, e);
    var b1 := b.(entries := b.entries[a := e]);
    forall x
      ensures (IsTried(b1, x) <==> IsTried(b, x)) && Refs(b1, x) == Refs(b, x)
    {
      SameTables(b, b1, x);
    }
    TriedKnown(h, b, {});
    var s := NewSlot(h, e.svc, source);
    NotPlaced(b1, a, s);
    if Yields(b1, s, later, true) {
      SettleInv(h, b1, s, a, {a});
      var u := Settle(b1, s, a);
      if u.entries != b1.entries {
        var x :| Forgettable(b1, x) && x != a && u.entries == b1.entries - {x};
        assert Forgettable(b, x);
      }
    } else {
      assert b1.(entries := b1.entries - {a}) == b;
    }
  }

  lemma NotPlaced(b: Book, a: NetAddr, s: Slot)
    requires Refs(b, a) == {}
    ensures s in b.newTab ==> b.newTab[s] != a
  {
    assert s !in Refs(b, a);
  }

  // ---------- the flag that Add returns ----------

  /**
   Add reports success for every routable unknown address, kept or not. It is kept exactly
   when its slot yields: the slot is free, its occupant is terrible, or the occupant sits in
   another slot as well.
   */
  lemma AddedOrDropped(h: Oracle, b: Book, addr: Address, source: NetAddr, penalty: int, now: int, later: int, roll: nat)
    requires Inv(h, b, {}) && h.routable(addr.svc) && addr.svc.ip !in b.entries
    ensures var (u, fNew) := Add(h, b, addr, source, penalty, now, later, roll);
            fNew && (addr.svc.ip in u.entries <==> Yields(b, NewSlot(h, addr.svc, source), later, true))
  {
    var a := addr.svc.ip;
    var e := NewEntry(addr, source, if a == source then 0 else penalty);
    var b1 := b.(entries := b.entries[a := e]);
    var s := NewSlot(h, addr.svc, source);
    NewcomerInv(h, b, a, e);
    NotPlaced(b1, a, s);
    if s in b.newTab {
      SameTables(b, b1, b.newTab[s]);
      assert b.newTab[s] in b.entries;
    }
    hide Refs, IsTried, IsTerrible, Displace;
    assert Yields(b, s, later, true) <==> Yields(b1, s, later, true);
    if Yields(b1, s, later, true) {
      SettleInv(h, b1, s, a, {a});
    }
  }

  // ---------- times ----------

  /** No recorded time is negative and every tried address has a success on record. */
  ghost predicate TimesOk(b: Book) {
    && (forall a :: a in b.entries ==> b.entries[a].lastTry >= 0 && b.entries[a].lastSuccess >= 0)
    && (forall a :: a in b.entries && IsTried(b, a) ==> b.entries[a].lastSuccess != 0)
  }

  /** Marking a known service good keeps the times in order exactly when the given time is positive. */
  lemma GoodTimes(h: Oracle, b: Book, svc: Service, time: int)
    requires Inv(h, b, {}) && TimesOk(b) && svc.ip in b.entries && b.entries[svc.ip].svc == svc
    ensures TimesOk(Good(h, b, svc, time)) <==> time > 0
  {
    hide Inv, Good, IsTried, Forgettable;
    GoodKeeps(h, b, svc, time);
    GoodTriedFrom(h, b, svc, time);
    TriedKnown(h, b, {});
  }

  /** Only the service that was marked can become tried. */
  lemma GoodTriedFrom(h: Oracle, b: Book, svc: Service, time: int)
    ensures forall x :: x != svc.ip && IsTried(Good(h, b, svc, time), x) ==> IsTried(b, x)
  {
    hide Good;
    GoodTried(h, b, svc, time);
  }

  lemma GoodTried(h: Oracle, b: Book, svc: Service, time: int)
    ensures var u := Good(h, b, svc, time);
            u.triedTab == b.triedTab || u.triedTab == b.triedTab[TriedSlot(h, svc) := svc.ip]
  {
  }

  /** Recording an attempt keeps the times in order exactly when the given time is not negative. */
  lemma AttemptTimes(b: Book, svc: Service, fCount: bool, time: int, lastGood: int)
    requires TimesOk(b) && svc.ip in b.entries && b.entries[svc.ip].svc == svc
    ensures TimesOk(Touch(b, svc, e => MarkAttempt(e, fCount, time, lastGood))) <==> time >= 0
  {
    var u := Touch(b, svc, e => MarkAttempt(e, fCount, time, lastGood));
    assert u.entries[svc.ip].lastTry == time;
    hide IsTried;
    forall x
      ensures IsTried(u, x) <==> IsTried(b, x)
    {
      SameTables(b, u, x);
    }
  }

  lemma TouchTimes(b: Book, svc: Service, f: Entry -> Entry)
    requires TimesOk(b)
    requires forall e :: f(e).lastTry == e.lastTry && f(e).lastSuccess == e.lastSuccess
    ensures TimesOk(Touch(b, svc, f))
  {
    hide IsTried;
    forall x
      ensures IsTried(Touch(b, svc, f), x) <==> IsTried(b, x)
    {
      SameTables(b, Touch(b, svc, f), x);
    }
  }

  lemma AddTimes(h: Oracle, b: Book, addr: Address, source: NetAddr, penalty: int, now: int, later: int, roll: nat)
    requires Inv(h, b, {}) && TimesOk(b)
    ensures TimesOk(Add(h, b, addr, source, penalty, now, later, roll).0)
  {
    hide Inv, Add, IsTried, Forgettable;
    AddKeeps(h, b, addr, source, penalty, now, later, roll);
    var u := Add(h, b, addr, source, penalty, now, later, roll).0;
    forall x
      ensures IsTried(u, x) <==> IsTried(b, x)
    {
      SameTried(b, u, x);
    }
    TriedKnown(h, b, {});
    AddEntry(h, b, addr, source, penalty, now, later, roll);
  }

  lemma SameTried(b: Book, u: Book, x: NetAddr)
    requires u.triedTab == b.triedTab
    ensures IsTried(u, x) <==> IsTried(b, x)
  {
  }

  lemma AddEntry(h: Oracle, b: Book, addr: Address, source: NetAddr, penalty: int, now: int, later: int, roll: nat)
    ensures var u, a := Add(h, b, addr, source, penalty, now, later, roll).0, addr.svc.ip;
            a in u.entries ==>
              if a in b.entries then u.entries[a].lastTry == b.entries[a].lastTry && u.entries[a].lastSuccess == b.entries[a].lastSuccess
              else u.entries[a].lastTry == 0 && u.entries[a].lastSuccess == 0
  {
    hide Eligible, Yields, Merged;
  }

  // ---------- runs ----------

  datatype Op =
    | AddOp(addr: Address, source: NetAddr, penalty: int, now: int, later: int, roll: nat)
    | GoodOp(svc: Service, time: int, roll: nat)
    | AttemptOp(svc: Service, fCount: bool, time: int)
    | ConnectedOp(svc: Service, time: int)
    | ServicesOp(svc: Service, services: bv64)
    | GetAddrOp(now: int, rolls: nat -> nat)

  datatype Session = Session(book: Book, lastGood: int)

  ghost function Step(h: Oracle, s: Session, op: Op): Session {
    match op
    case AddOp(addr, source, penalty, now, later, roll) =>
      s.(book := Add(h, s.book, addr, source, penalty, now, later, roll).0)
    case GoodOp(svc, time, _) => Session(Good(h, s.book, svc, time), time)
    case AttemptOp(svc, fCount, time) =>
      s.(book := Touch(s.book, svc, e => MarkAttempt(e, fCount, time, s.lastGood)))
    case ConnectedOp(svc, time) => s.(book := Touch(s.book, svc, e => MarkConnected(e, time)))
    case ServicesOp(svc, services) => s.(book := Touch(s.book, svc, (e: Entry) => e.(services := services)))
    case GetAddrOp(_, _) => s
  }

  ghost function Run(h: Oracle, s: Session, ops: seq<Op>): Session {
    if ops == [] then s else Step(h, Run(h, s, ops[..|ops| - 1]), ops[|ops| - 1])
  }

  const EMPTY := Session(Book(map[], map[], map[]), 1)

  /** The clock of the caller gave a positive time. */
  predicate Positive(op: Op) {
    (op.GoodOp? || op.AttemptOp? ==> op.time > 0)
  }

  lemma TouchInv(h: Oracle, b: Book, svc: Service, f: Entry -> Entry)
    requires Inv(h, b, {}) && forall e :: f(e).svc == e.svc
    ensures Inv(h, Touch(b, svc, f), {})
  {
    hide Inv;
    if svc.ip in b.entries && b.entries[svc.ip].svc == svc {
      TouchKeeps(h, b, svc.ip, f(b.entries[svc.ip]));
    }
  }

  lemma StepKeeps(h: Oracle, s: Session, op: Op)
    requires Inv(h, s.book, {})
    ensures Inv(h, Step(h, s, op).book, {})
  {
    hide Inv, Add, Good, Touch, Forgettable, IsTried;
    match op
    case AddOp(addr, source, penalty, now, later, roll) =>
      AddKeeps(h, s.book, addr, source, penalty, now, later, roll);
    case GoodOp(svc, time, _) =>
      GoodKeeps(h, s.book, svc, time);
    case AttemptOp(svc, fCount, time) =>
      TouchInv(h, s.book, svc, e => MarkAttempt(e, fCount, time, s.lastGood));
    case ConnectedOp(svc, time) =>
      TouchInv(h, s.book, svc, e => MarkConnected(e, time));
    case ServicesOp(svc, services) =>
      TouchInv(h, s.book, svc, (e: Entry) => e.(services := services));
    case GetAddrOp(_, _) =>
  }

  lemma StepTimes(h: Oracle, s: Session, op: Op)
    requires Inv(h, s.book, {}) && TimesOk(s.book) && Positive(op)
    ensures TimesOk(Step(h, s, op).book)
  {
    hide Inv, Add, TimesOk;
    match op
    case AddOp(addr, source, penalty, now, later, roll) =>
      AddTimes(h, s.book, addr, source, penalty, now, later, roll);
    case GoodOp(svc, time, _) =>
      if svc.ip in s.book.entries && s.book.entries[svc.ip].svc == svc {
        GoodTimes(h, s.book, svc, time);
      }
    case AttemptOp(svc, fCount, time) =>
      if svc.ip in s.book.entries && s.book.entries[svc.ip].svc == svc {
        AttemptTimes(s.book, svc, fCount, time, s.lastGood);
      }
    case ConnectedOp(svc, time) =>
      TouchTimes(s.book, svc, e => MarkConnected(e, time));
    case ServicesOp(svc, services) =>
      TouchTimes(s.book, svc, (e: Entry) => e.(services := services));
    case GetAddrOp(_, _) =>
  }

  /**
   Every run from an empty manager leaves a consistent book, and one whose times are in order
   when the clock gave positive times.
   */
  lemma {:induction false} EveryRun(h: Oracle, ops: seq<Op>)
    ensures Consistent(h, Run(h, EMPTY, ops).book)
    ensures (forall k :: 0 <= k < |ops| ==> Positive(ops[k])) ==> TimesOk(Run(h, EMPTY, ops).book)
  {
    hide Consistent, Inv, TimesOk, Step;
    if ops == [] {
      EmptyOk(h);
    } else {
      var n := |ops| - 1;
      var s := Run(h, EMPTY, ops[..n]);
      EveryRun(h, ops[..n]);
      InvIsConsistent(h, s.book);
      StepKeeps(h, s, ops[n]);
      InvIsConsistent(h, Step(h, s, ops[n]).book);
      if forall k :: 0 <= k < |ops| ==> Positive(ops[k]) {
        StepTimes(h, s, ops[n]);
      }
    }
  }

  lemma EmptyOk(h: Oracle)
    ensures Consistent(h, EMPTY.book) && TimesOk(EMPTY.book)
  {
  }

  // ---------- inputs on which an address is dropped or a time is out of order ----------

  /** All hashes are zero, so there is one new slot, and every service is routable. */
  function ZeroOracle(): Oracle { Oracle((svc, source) => 0, svc => 0, (fNew, bucket, svc) => 0, svc => true) }

  function SampleService(ip: bv8): Service { Service([ip], 22556) }

  /** A book whose only address sits in that slot. */
  function OneEntry(): Book {
    Book(map[[1] := Entry(SampleService(1), 1000, 0, [1], 0, 0, 0, 0)], map[Slot(0, 0) := [1]], map[])
  }

  lemma OneEntryInv()
    ensures Inv(ZeroOracle(), OneEntry(), {}) && TimesOk(OneEntry()) && |Refs(OneEntry(), [1])| == 1
  {
    assert Refs(OneEntry(), [1]) == {Slot(0, 0)};
  }

  /** The slot is taken by an address in good standing: Add reports success and drops the address. */
  lemma DroppedThoughNew()
    ensures var (u, fNew) := Add(ZeroOracle(), OneEntry(), Address(SampleService(2), 1000, 0), [2], 0, 1000, 1000, 0);
            fNew && SampleService(2).ip !in u.entries
  {
    OneEntryInv();
    assert SampleService(2).ip[0] != [1][0];
    AddedOrDropped(ZeroOracle(), OneEntry(), Address(SampleService(2), 1000, 0), [2], 0, 1000, 1000, 0);
  }

  /** An address marked good at time zero is tried without a success on record. */
  lemma GoodAtZero()
    ensures TimesOk(OneEntry()) && !TimesOk(Good(ZeroOracle(), OneEntry(), SampleService(1), 0))
  {
    OneEntryInv();
    GoodTimes(ZeroOracle(), OneEntry(), SampleService(1), 0);
  }

  /** An attempt at a negative time is recorded as such. */
  lemma AttemptBeforeZero()
    ensures TimesOk(OneEntry()) && !TimesOk(Touch(OneEntry(), SampleService(1), e => MarkAttempt(e, true, -1, 0)))
  {
    OneEntryInv();
    AttemptTimes(OneEntry(), SampleService(1), true, -1, 0);
  }
}
