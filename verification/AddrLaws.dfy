/**
 What each operation of the address manager does to the book, in numbers: the slots by the
 hashes, the fields by the old fields and the arguments, and what is forgotten on the way.
 */
module AddrLaws {
  import opened AddrBook
  import Numbers
  import Runs = AddrRuns

  /** The new slot of a service as heard from a source: a bucket of 1024, a position of 64. */
  function NewHome(h: Oracle, svc: Service, source: NetAddr): Slot {
    var bucket := h.newHash(svc, source) % 1024;
    Slot(bucket, h.posHash(true, bucket, svc) % 64)
  }

  /** The tried slot of a service: a bucket of 256, a position of 64. */
  function TriedHome(h: Oracle, svc: Service): Slot {
    var bucket := h.triedHash(svc) % 256;
    Slot(bucket, h.posHash(false, bucket, svc) % 64)
  }

  /**
   Not worth keeping: not tried within the last minute, and from more than ten minutes in the
   future, without a time, not seen for thirty days, never reached in three tries, or not reached
   for a week in ten.
   */
  predicate Hopeless(e: Entry, now: int) {
    && (e.lastTry == 0 || now - e.lastTry > 60)
    && (|| e.time - now > 600 || e.time == 0 || now - e.time > 2592000
        || (e.lastSuccess == 0 && e.attempts >= 3) || (now - e.lastSuccess > 604800 && e.attempts >= 10))
  }

  lemma TerribleIff(e: Entry, now: int)
    ensures IsTerrible(e, now) <==> Hopeless(e, now)
  {
  }

  /** What is left of the entries of `b` when slot `s` is freed: an occupant without another slot is forgotten. */
  ghost predicate Freed(b: Book, s: Slot, u: Book, x: NetAddr) {
    && (x in u.entries <==> x in b.entries && !(s in b.newTab && b.newTab[s] == x && Refs(b, x) == {s}))
    && (x in u.entries ==> u.entries[x] == b.entries[x])
  }

  lemma DisplaceIs(b: Book, s: Slot)
    ensures Displace(b, s).newTab == b.newTab - {s} && Displace(b, s).triedTab == b.triedTab
    ensures forall x :: Freed(b, s, Displace(b, s), x)
  {
    if s in b.newTab {
      var a, u := b.newTab[s], Displace(b, s);
      var b1 := b.(newTab := b.newTab - {s});
      assert Refs(b1, a) == Refs(b, a) - {s} && s in Refs(b, a);
      assert Refs(b1, a) == {} <==> Refs(b, a) == {s};
    } else {
      assert b.newTab - {s} == b.newTab;
    }
  }

  lemma SettleIs(b: Book, s: Slot, a: NetAddr)
    ensures Settle(b, s, a).newTab == b.newTab[s := a] && Settle(b, s, a).triedTab == b.triedTab
    ensures forall x :: Freed(b, s, Settle(b, s, a), x)
  {
    DisplaceIs(b, s);
    assert (b.newTab - {s})[s := a] == b.newTab[s := a];
  }

  /** How the entry of a known address changes when it is heard of again: its time if that is old enough, and its services. */
  predicate Refreshed(e: Entry, addr: Address, penalty: int, now: int, e': Entry) {
    e'.services == e.services | addr.services && TimeRefreshed(e, addr, penalty, now, e')
  }

  predicate TimeRefreshed(e: Entry, addr: Address, penalty: int, now: int, e': Entry) {
    && e'.svc == e.svc && e'.source == e.source && e'.attempts == e.attempts
    && e'.lastTry == e.lastTry && e'.lastCountAttempt == e.lastCountAttempt && e'.lastSuccess == e.lastSuccess
    && var interval := if now - addr.time < 86400 then 3600 else 86400;
       if addr.time == 0 || (e.time != 0 && e.time + interval + penalty >= addr.time) then e'.time == e.time
       else e'.time == if addr.time > penalty then addr.time - penalty else 0
  }

  /**
   Whether a known address earns another slot: the news is newer than what is now on record, it
   is not tried, has fewer than eight slots, and wins against odds that double with each slot.
   */
  ghost predicate Earns(b: Book, a: NetAddr, time: int, recorded: int, roll: nat) {
    && time != 0 && (recorded == 0 || recorded < time) && !IsTried(b, a)
    && |Refs(b, a)| < 8 && roll % Numbers.Pow2(|Refs(b, a)|) == 0
  }

  /**
   What hearing of a known address does: it takes the slot its new source prescribes if it earned
   that and the slot is free or its occupant hopeless.
   */
  ghost predicate HeardAgain(h: Oracle, b: Book, addr: Address, source: NetAddr, penalty: int, now: int, later: int, roll: nat, u: Book)
    requires addr.svc.ip in b.entries
  {
    var a, e := addr.svc.ip, b.entries[addr.svc.ip];
    var s := NewHome(h, e.svc, source);
    && a in u.entries && Refreshed(e, addr, if a == source then 0 else penalty, now, u.entries[a])
    && u.triedTab == b.triedTab
    && if Earns(b, a, addr.time, u.entries[a].time, roll)
          && (s in b.newTab ==> b.newTab[s] != a && b.newTab[s] in b.entries && Hopeless(b.entries[b.newTab[s]], later))
       then u.newTab == b.newTab[s := a] && forall x :: x != a ==> Freed(b, s, u, x)
       else u.newTab == b.newTab && u.entries.Keys == b.entries.Keys && forall x :: x in b.entries && x != a ==> u.entries[x] == b.entries[x]
  }

  lemma AddKnown(h: Oracle, b: Book, addr: Address, source: NetAddr, penalty: int, now: int, later: int, roll: nat)
    requires Runs.Inv(h, b, {}) && h.routable(addr.svc) && addr.svc.ip in b.entries
    ensures var (u, fNew) := Add(h, b, addr, source, penalty, now, later, roll);
            !fNew && HeardAgain(h, b, addr, source, penalty, now, later, roll, u)
  {
    hide Hopeless, Refs, IsTried, Freed, Relocate, Refresh, Refreshed, Eligible, Earns, Runs.Inv, NewHome;
    var a := addr.svc.ip;
    var p := if a == source then 0 else penalty;
    var e' := Refresh(b.entries[a], addr, p, now);
    RefreshIs(b.entries[a], addr, p, now);
    var b1 := b.(entries := b.entries[a := e']);
    EligibleIs(h, b, b1, a, addr.time, roll);
    RelocateIs(h, b, b1, a, source, later);
  }

  lemma RefreshIs(e: Entry, addr: Address, penalty: int, now: int)
    ensures Refreshed(e, addr, penalty, now, Refresh(e, addr, penalty, now)) && Refresh(e, addr, penalty, now).svc == e.svc
  {
    hide TimeRefreshed, Refresh;
    RefreshTime(e, addr, penalty, now);
  }

  lemma RefreshTime(e: Entry, addr: Address, penalty: int, now: int)
    ensures TimeRefreshed(e, addr, penalty, now, Refresh(e, addr, penalty, now)) && Refresh(e, addr, penalty, now).svc == e.svc
    ensures Refresh(e, addr, penalty, now).services == Merged(e.services, addr.services)
  {
    hide Merged;
  }

  lemma EligibleIs(h: Oracle, b: Book, b1: Book, a: NetAddr, time: int, roll: nat)
    requires Runs.Inv(h, b, {}) && a in b.entries && b1 == b.(entries := b1.entries) && a in b1.entries
    ensures Eligible(b1, a, time, roll) <==> Earns(b, a, time, b1.entries[a].time, roll)
  {
    hide Refs, IsTried, Runs.Inv;
    KnownHere(h, b, b1, a);
  }

  lemma RelocateIs(h: Oracle, b: Book, b1: Book, a: NetAddr, source: NetAddr, later: int)
    requires Runs.Inv(h, b, {}) && a in b.entries && a in b1.entries && b1 == b.(entries := b.entries[a := b1.entries[a]])
    requires b1.entries[a].svc == b.entries[a].svc
    ensures var u, s := Relocate(h, b1, a, source, later, false), NewHome(h, b.entries[a].svc, source);
            && a in u.entries && u.entries[a] == b1.entries[a] && u.triedTab == b.triedTab
            && if s in b.newTab ==> b.newTab[s] != a && b.newTab[s] in b.entries && Hopeless(b.entries[b.newTab[s]], later)
               then u.newTab == b.newTab[s := a] && forall x :: x != a ==> Freed(b, s, u, x)
               else u == b1
  {
    hide IsTerrible, Hopeless, Refs, IsTried, Settle, Freed, Runs.Inv;
    var s := NewHome(h, b.entries[a].svc, source);
    assert s == NewSlot(h, b1.entries[a].svc, source);
    if s in b.newTab {
      Runs.NewKnown(h, b, s);
      TerribleIff(b.entries[b.newTab[s]], later);
    }
    if !(s in b.newTab && b.newTab[s] == a) {
      SettleIs(b1, s, a);
      NewcomerStays(b1, s, a);
      forall x | x != a
        ensures Freed(b1, s, Settle(b1, s, a), x) ==> Freed(b, s, Settle(b1, s, a), x)
      {
        FreedSame(b, b1, s, Settle(b1, s, a), x);
      }
    }
  }

  lemma FreedSame(b: Book, b1: Book, s: Slot, u: Book, x: NetAddr)
    requires b1.newTab == b.newTab && (x in b1.entries <==> x in b.entries) && (x in b.entries ==> b1.entries[x] == b.entries[x])
    ensures Freed(b1, s, u, x) <==> Freed(b, s, u, x)
  {
  }

  lemma KnownHere(h: Oracle, b: Book, b1: Book, a: NetAddr)
    requires Runs.Inv(h, b, {}) && a in b.entries && b1 == b.(entries := b1.entries)
    ensures Refs(b1, a) == Refs(b, a) && (IsTried(b1, a) <==> IsTried(b, a))
    ensures !IsTried(b, a) ==> 1 <= |Refs(b, a)| <= 8 && Numbers.Pow2(|Refs(b, a)|) > 1
  {
    Runs.SameTables(b, b1, a);
    if !IsTried(b, a) {
      Runs.HousedFacts(h, b, a);
    }
  }

  /**
   What hearing of an unknown address does: it takes the slot of its source if that is free, or its
   occupant hopeless or at home elsewhere too; otherwise nothing changes.
   */
  ghost predicate HeardFirst(h: Oracle, b: Book, addr: Address, source: NetAddr, penalty: int, later: int, u: Book) {
    var a, s := addr.svc.ip, NewHome(h, addr.svc, source);
    var p := if a == source then 0 else penalty;
    if s in b.newTab ==> b.newTab[s] in b.entries && (Hopeless(b.entries[b.newTab[s]], later) || |Refs(b, b.newTab[s])| > 1)
    then
      && a in u.entries
      && u.entries[a] == Entry(addr.svc, if addr.time > p then addr.time - p else 0, addr.services, source, 0, 0, 0, 0)
      && u.newTab == b.newTab[s := a] && u.triedTab == b.triedTab && forall x :: x != a ==> Freed(b, s, u, x)
    else u == b
  }

  lemma AddUnknown(h: Oracle, b: Book, addr: Address, source: NetAddr, penalty: int, now: int, later: int, roll: nat)
    requires Runs.Inv(h, b, {}) && h.routable(addr.svc) && addr.svc.ip !in b.entries
    ensures var (u, fNew) := Add(h, b, addr, source, penalty, now, later, roll);
            fNew && HeardFirst(h, b, addr, source, penalty, later, u)
  {
    hide IsTerrible, Hopeless, Refs, IsTried, Settle, Freed;
    var a := addr.svc.ip;
    var p := if a == source then 0 else penalty;
    var b1 := b.(entries := b.entries[a := NewEntry(addr, source, p)]);
    var s := NewHome(h, addr.svc, source);
    assert s == NewSlot(h, b1.entries[a].svc, source);
    if s in b.newTab {
      Runs.NewKnown(h, b, s);
      TerribleIff(b.entries[b.newTab[s]], later);
      Runs.SameTables(b, b1, b.newTab[s]);
    }
    SettleIs(b1, s, a);
    NewcomerStays(b1, s, a);
    forall x | x != a
      ensures Freed(b1, s, Settle(b1, s, a), x) ==> Freed(b, s, Settle(b1, s, a), x)
    {
      FreedSame(b, b1, s, Settle(b1, s, a), x);
    }
    assert b1.(entries := b1.entries - {a}) == b;
  }

  lemma NewcomerStays(b: Book, s: Slot, a: NetAddr)
    requires a in b.entries && (s in b.newTab ==> b.newTab[s] != a)
    ensures a in Settle(b, s, a).entries && Settle(b, s, a).entries[a] == b.entries[a]
  {
    DisplaceIs(b, s);
    assert Freed(b, s, Displace(b, s), a);
  }

  /** An address that is not routable is ignored. */
  lemma AddUnroutable(h: Oracle, b: Book, addr: Address, source: NetAddr, penalty: int, now: int, later: int, roll: nat)
    requires !h.routable(addr.svc)
    ensures Add(h, b, addr, source, penalty, now, later, roll) == (b, false)
  {
  }

  /**
   What marking a known service good does. Its success and last try are now, its failures none. If
   it was not tried, it leaves all its new slots for its tried slot; who was there goes to the new
   slot that its own source prescribes, and who was there in turn is forgotten if that was its last.
   */
  ghost predicate MarkedGood(h: Oracle, b: Book, svc: Service, time: int, u: Book)
    requires svc.ip in b.entries
  {
    var a, e := svc.ip, b.entries[svc.ip];
    && a in u.entries && u.entries[a] == Entry(e.svc, e.time, e.services, e.source, time, e.lastCountAttempt, time, 0)
    && if IsTried(b, a) then u.newTab == b.newTab && u.triedTab == b.triedTab && Unmoved(b, u, a)
       else
         var rest, ts := b.newTab - Refs(b, a), TriedHome(h, e.svc);
         && u.triedTab == b.triedTab[ts := a]
         && if ts !in b.triedTab then u.newTab == rest && Unmoved(b, u, a)
            else
              var was := b.triedTab[ts];
              && was in b.entries
              && var us := NewHome(h, b.entries[was].svc, b.entries[was].source);
                 u.newTab == rest[us := was] && forall x :: x != a ==> Freed(b.(newTab := rest), us, u, x)
  }

  ghost predicate Unmoved(b: Book, u: Book, a: NetAddr) {
    u.entries.Keys == b.entries.Keys && forall x :: x in b.entries && x != a ==> u.entries[x] == b.entries[x]
  }

  lemma GoodIs(h: Oracle, b: Book, svc: Service, time: int)
    requires Runs.Inv(h, b, {})
    ensures if svc.ip in b.entries && b.entries[svc.ip].svc == svc then MarkedGood(h, b, svc, time, Good(h, b, svc, time))
            else Good(h, b, svc, time) == b
  {
    hide Refs, IsTried, Freed, Displace;
    if svc.ip in b.entries && b.entries[svc.ip].svc == svc {
      var a := svc.ip;
      var b1 := b.(entries := b.entries[a := MarkGood(b.entries[a], time)]);
      KnownHere(h, b, b1, a);
      if !IsTried(b, a) {
        PromoteIs(h, b, b1, a);
      }
    }
  }

  lemma PromoteIs(h: Oracle, b: Book, b1: Book, a: NetAddr)
    requires Runs.Inv(h, b, {}) && a in b.entries && !IsTried(b, a) && Refs(b1, a) == Refs(b, a)
    requires a in b1.entries && b1 == b.(entries := b.entries[a := b1.entries[a]]) && b1.entries[a].svc == b.entries[a].svc
    ensures var u, rest, ts := Promote(h, b1, a), b.newTab - Refs(b, a), TriedHome(h, b.entries[a].svc);
            && u.triedTab == b.triedTab[ts := a] && a in u.entries && u.entries[a] == b1.entries[a]
            && if ts !in b.triedTab then u.newTab == rest && Unmoved(b, u, a)
               else
                 && b.triedTab[ts] in b.entries
                 && var us := NewHome(h, b.entries[b.triedTab[ts]].svc, b.entries[b.triedTab[ts]].source);
                    u.newTab == rest[us := b.triedTab[ts]] && forall x :: x != a ==> Freed(b.(newTab := rest), us, u, x)
  {
    hide IsTried, Freed, Displace;
    Runs.TriedKnown(h, b, {});
    var ts := TriedHome(h, b.entries[a].svc);
    assert ts == TriedSlot(h, b1.entries[a].svc);
    if ts in b.triedTab {
      var was := b.triedTab[ts];
      TriedIs(b, ts);
      var us := NewHome(h, b.entries[was].svc, b.entries[was].source);
      var b2 := b1.(newTab := b1.newTab - Refs(b1, a));
      DisplaceIs(b2, us);
      DisplacedNot(b2, us, a);
      forall x | x != a
        ensures Freed(b2, us, Displace(b2, us), x) <==> Freed(b.(newTab := b2.newTab), us, Promote(h, b1, a), x)
      {
        FreedTables(b2, b.(newTab := b2.newTab), us, Displace(b2, us), Promote(h, b1, a), x);
      }
      assert (b2.newTab - {us})[us := was] == b2.newTab[us := was];
    }
  }

  lemma TriedIs(b: Book, s: Slot)
    requires s in b.triedTab
    ensures IsTried(b, b.triedTab[s])
  {
  }

  lemma FreedTables(b1: Book, b: Book, s: Slot, u1: Book, u: Book, x: NetAddr)
    requires b1.newTab == b.newTab && (x in b1.entries <==> x in b.entries) && (x in b.entries ==> b1.entries[x] == b.entries[x])
    requires u1.entries == u.entries
    ensures Freed(b1, s, u1, x) <==> Freed(b, s, u, x)
  {
  }

  lemma DisplacedNot(b: Book, s: Slot, a: NetAddr)
    requires a in b.entries && Refs(b, a) == {}
    ensures a in Displace(b, s).entries && Displace(b, s).entries[a] == b.entries[a]
  {
    DisplaceIs(b, s);
    assert Freed(b, s, Displace(b, s), a);
    assert s !in Refs(b, a);
  }

  /** An attempt sets the last try; a counted one raises the failures by one unless one was counted since the last success anywhere. */
  lemma AttemptIs(b: Book, svc: Service, fCount: bool, time: int, lastGood: int)
    ensures var u := Touch(b, svc, e => MarkAttempt(e, fCount, time, lastGood));
            && u.newTab == b.newTab && u.triedTab == b.triedTab && Unmoved(b, u, svc.ip)
            && (svc.ip in b.entries ==>
                  var e := b.entries[svc.ip];
                  if e.svc != svc then u == b
                  else if fCount && e.lastCountAttempt < lastGood
                  then u.entries[svc.ip] == Entry(svc, e.time, e.services, e.source, time, time, e.lastSuccess, e.attempts + 1)
                  else u.entries[svc.ip] == Entry(svc, e.time, e.services, e.source, time, e.lastCountAttempt, e.lastSuccess, e.attempts))
  {
  }

  /** Between two successes anywhere, at most one failure of an address counts. */
  lemma CountedOnce(e: Entry, first: int, second: int, lastGood: int)
    requires lastGood <= first
    ensures MarkAttempt(MarkAttempt(e, true, first, lastGood), true, second, lastGood).attempts <= e.attempts + 1
  {
  }

  /** A connection refreshes the time if that is more than twenty minutes old. */
  lemma ConnectedIs(b: Book, svc: Service, time: int)
    ensures var u := Touch(b, svc, e => MarkConnected(e, time));
            && u.newTab == b.newTab && u.triedTab == b.triedTab && Unmoved(b, u, svc.ip)
            && (svc.ip in b.entries ==>
                  var e := b.entries[svc.ip];
                  && (e.svc != svc || time - e.time <= 1200 ==> u == b)
                  && (e.svc == svc && time - e.time > 1200 ==>
                        u.entries[svc.ip] == Entry(svc, time, e.services, e.source, e.lastTry, e.lastCountAttempt, e.lastSuccess, e.attempts)))
  {
    if svc.ip in b.entries && b.entries[svc.ip].svc == svc {
      assert b.entries[svc.ip := b.entries[svc.ip]] == b.entries;
    }
  }
}
