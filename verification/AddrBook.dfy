/**
 The address manager as its users see it: which addresses are known, in which
 slots of the "new" and "tried" tables each one sits, and nothing else. There are
 no ids, no reference counts, no counters and no random order here; those belong
 to the indexes of `AddrTables`, which are proved to refine this book.
 */
module AddrBook {
  import Numbers

  const TRIED_BUCKET_COUNT := 256
  const NEW_BUCKET_COUNT := 1024
  const BUCKET_SIZE := 64
  const NEW_BUCKETS_PER_ADDRESS := 8
  const HORIZON_DAYS := 30
  const RETRIES := 3
  const MAX_FAILURES := 10
  const MIN_FAIL_DAYS := 7
  const DAY := 24 * 60 * 60

  type NetAddr = seq<bv8>
  datatype Service = Service(ip: NetAddr, port: nat)
  datatype Address = Address(svc: Service, time: int, services: bv64)
  datatype Slot = Slot(bucket: int, pos: int)

  /** The keyed hashes (for one secret key) and the routability test, left arbitrary. */
  datatype Oracle = Oracle(
    newHash: (Service, NetAddr) -> nat,
    triedHash: Service -> nat,
    posHash: (bool, int, Service) -> nat,
    routable: Service -> bool)

  /** What is known about one address, without the bookkeeping of the tables. */
  datatype Entry = Entry(
    svc: Service, time: int, services: bv64, source: NetAddr,
    lastTry: int, lastCountAttempt: int, lastSuccess: int, attempts: int)

  datatype Book = Book(
    entries: map<NetAddr, Entry>, newTab: map<Slot, NetAddr>, triedTab: map<Slot, NetAddr>)

  function NewBucket(h: Oracle, svc: Service, source: NetAddr): int {
    h.newHash(svc, source) % NEW_BUCKET_COUNT
  }

  function TriedBucket(h: Oracle, svc: Service): int {
    h.triedHash(svc) % TRIED_BUCKET_COUNT
  }

  function BucketPosition(h: Oracle, fNew: bool, bucket: int, svc: Service): int {
    h.posHash(fNew, bucket, svc) % BUCKET_SIZE
  }

  function NewSlot(h: Oracle, svc: Service, source: NetAddr): Slot {
    var b := NewBucket(h, svc, source);
    Slot(b, BucketPosition(h, true, b, svc))
  }

  function TriedSlot(h: Oracle, svc: Service): Slot {
    var b := TriedBucket(h, svc);
    Slot(b, BucketPosition(h, false, b, svc))
  }

  predicate IsTerrible(e: Entry, now: int) {
    if e.lastTry != 0 && e.lastTry >= now - 60 then false
    else if e.time > now + 10 * 60 then true
    else if e.time == 0 || now - e.time > HORIZON_DAYS * DAY then true
    else if e.lastSuccess == 0 && e.attempts >= RETRIES then true
    else now - e.lastSuccess > MIN_FAIL_DAYS * DAY && e.attempts >= MAX_FAILURES
  }

  function Max0(x: int): int { if x < 0 then 0 else x }

  /** The slots of the new table that hold `a`. */
  function Refs(b: Book, a: NetAddr): set<Slot> {
    set s | s in b.newTab && b.newTab[s] == a
  }

  ghost predicate IsTried(b: Book, a: NetAddr) {
    exists s :: s in b.triedTab && b.triedTab[s] == a
  }

  /**
   The consistency of a book: every known address is either tried, in exactly its own
   tried slot and in no new slot, or it sits in one to eight new slots, each at the
   position its bucket prescribes; and the tables mention known addresses only.
   */
  ghost predicate Consistent(h: Oracle, b: Book) {
    && (forall a :: a in b.entries ==> b.entries[a].svc.ip == a)
    && (forall s :: s in b.triedTab ==>
          b.triedTab[s] in b.entries && s == TriedSlot(h, b.entries[b.triedTab[s]].svc))
    && (forall s :: s in b.newTab ==>
          b.newTab[s] in b.entries && 0 <= s.bucket < NEW_BUCKET_COUNT
          && s.pos == BucketPosition(h, true, s.bucket, b.entries[b.newTab[s]].svc))
    && (forall a :: a in b.entries ==>
          if IsTried(b, a) then Refs(b, a) == {} else 1 <= |Refs(b, a)| <= NEW_BUCKETS_PER_ADDRESS)
  }

  /** Free a new slot; an address that loses its last slot this way is forgotten. */
  function Displace(b: Book, s: Slot): Book {
    if s !in b.newTab then b
    else
      var a := b.newTab[s];
      var b1 := b.(newTab := b.newTab - {s});
      if Refs(b1, a) == {} then b1.(entries := b1.entries - {a}) else b1
  }

  /** Move `a` from the new slots to its tried slot, sending the occupant there back to "new". */
  function Promote(h: Oracle, b: Book, a: NetAddr): Book
    requires a in b.entries
  {
    var b1 := b.(newTab := b.newTab - Refs(b, a));
    var ts := TriedSlot(h, b.entries[a].svc);
    if ts in b.triedTab && b.triedTab[ts] in b.entries then
      var was := b.triedTab[ts];
      var us := NewSlot(h, b.entries[was].svc, b.entries[was].source);
      var b2 := Displace(b1, us);
      b2.(newTab := b2.newTab[us := was], triedTab := b2.triedTab[ts := a])
    else
      b1.(triedTab := b1.triedTab[ts := a])
  }

  /** An update of one known entry; other services on the same address are left alone. */
  function Touch(b: Book, svc: Service, f: Entry -> Entry): Book {
    if svc.ip in b.entries && b.entries[svc.ip].svc == svc
    then b.(entries := b.entries[svc.ip := f(b.entries[svc.ip])]) else b
  }

  function MarkGood(e: Entry, time: int): Entry {
    e.(lastSuccess := time, lastTry := time, attempts := 0)
  }

  ghost function Good(h: Oracle, b: Book, svc: Service, time: int): Book {
    if svc.ip !in b.entries || b.entries[svc.ip].svc != svc then b
    else
      var b1 := Touch(b, svc, e => MarkGood(e, time));
      if IsTried(b1, svc.ip) then b1 else Promote(h, b1, svc.ip)
  }

  function MarkAttempt(e: Entry, fCount: bool, time: int, lastGood: int): Entry {
    var e1 := e.(lastTry := time);
    if fCount && e1.lastCountAttempt < lastGood
    then e1.(lastCountAttempt := time, attempts := e1.attempts + 1) else e1
  }

  function MarkConnected(e: Entry, time: int): Entry {
    if time - e.time > 20 * 60 then e.(time := time) else e
  }

  function Merged(a: bv64, b: bv64): bv64 { a | b }

  /** How hearing again about a known address refreshes its time and services. */
  function Refresh(e: Entry, addr: Address, penalty: int, now: int): Entry {
    var interval := if now - addr.time < DAY then 60 * 60 else DAY;
    var e1 := if addr.time != 0 && (e.time == 0 || e.time < addr.time - interval - penalty)
              then e.(time := Max0(addr.time - penalty)) else e;
    e1.(services := Merged(e1.services, addr.services))
  }

  function NewEntry(addr: Address, source: NetAddr, penalty: int): Entry {
    Entry(addr.svc, Max0(addr.time - penalty), addr.services, source, 0, 0, 0, 0)
  }

  /** Put `a` into new slot `s`, displacing whatever is there. */
  function Settle(b: Book, s: Slot, a: NetAddr): Book {
    var b1 := Displace(b, s);
    b1.(newTab := b1.newTab[s := a])
  }

  /**
   Whether new slot `s` may be taken: it is free, its occupant is terrible, or a newcomer
   meets an occupant that also sits elsewhere.
   */
  predicate Yields(b: Book, s: Slot, later: int, newcomer: bool) {
    s in b.newTab && b.newTab[s] in b.entries ==>
      IsTerrible(b.entries[b.newTab[s]], later) || (newcomer && |Refs(b, b.newTab[s])| > 1)
  }

  /** Whether hearing again about the known address `a` may earn it another new slot. */
  ghost predicate Eligible(b: Book, a: NetAddr, time: int, roll: nat)
    requires a in b.entries
  {
    && time != 0 && (b.entries[a].time == 0 || time > b.entries[a].time)
    && !IsTried(b, a)
    && |Refs(b, a)| != NEW_BUCKETS_PER_ADDRESS
    && (Numbers.Pow2(|Refs(b, a)|) > 1 ==> roll % Numbers.Pow2(|Refs(b, a)|) == 0)
  }

  /**
   Hearing about an address. `now` and `later` are the two clock readings, `roll` the random
   number of the stochastic test. The flag says whether the address was unknown before.
   */
  ghost function Add(h: Oracle, b: Book, addr: Address, source: NetAddr, penalty: int,
                     now: int, later: int, roll: nat): (Book, bool)
  {
    var a := addr.svc.ip;
    var p := if a == source then 0 else penalty;
    if !h.routable(addr.svc) then (b, false)
    else if a in b.entries then
      var b1 := b.(entries := b.entries[a := Refresh(b.entries[a], addr, p, now)]);
      if Eligible(b1, a, addr.time, roll) then (Relocate(h, b1, a, source, later, false), false) else (b1, false)
    else
      var b1 := b.(entries := b.entries[a := NewEntry(addr, source, p)]);
      (Relocate(h, b1, a, source, later, true), true)
  }

  /** Give `a` the new slot that `source` prescribes if that yields; a newcomer without a slot is dropped. */
  ghost function Relocate(h: Oracle, b: Book, a: NetAddr, source: NetAddr, later: int, newcomer: bool): Book
    requires a in b.entries
  {
    var s := NewSlot(h, b.entries[a].svc, source);
    if s in b.newTab && b.newTab[s] == a then b
    else if Yields(b, s, later, newcomer) then Settle(b, s, a)
    else if newcomer then b.(entries := b.entries - {a})
    else b
  }

  /** Promotion over an occupied tried slot, taken apart into the steps that carry it out. */
  lemma PromoteSteps(h: Oracle, b: Book, a: NetAddr)
    requires a in b.entries
    requires var ts := TriedSlot(h, b.entries[a].svc); ts in b.triedTab && b.triedTab[ts] in b.entries
    ensures var ts := TriedSlot(h, b.entries[a].svc);
            var was := b.triedTab[ts];
            var us := NewSlot(h, b.entries[was].svc, b.entries[was].source);
            var b2 := b.(newTab := b.newTab - Refs(b, a), triedTab := b.triedTab - {ts});
            var b3 := Displace(b2, us);
            Promote(h, b, a) == b3.(newTab := b3.newTab[us := was], triedTab := b3.triedTab[ts := a])
  {
    var ts := TriedSlot(h, b.entries[a].svc);
    var was := b.triedTab[ts];
    var us := NewSlot(h, b.entries[was].svc, b.entries[was].source);
    var b1 := b.(newTab := b.newTab - Refs(b, a));
    var b2 := b1.(triedTab := b1.triedTab - {ts});
    DisplaceFrame(b1, b2, us);
    assert b2.triedTab[ts := a] == b1.triedTab[ts := a];
  }

  lemma DisplaceFrame(b: Book, c: Book, s: Slot)
    requires b.entries == c.entries && b.newTab == c.newTab
    ensures Displace(c, s) == Displace(b, s).(triedTab := c.triedTab)
    ensures Displace(b, s).triedTab == b.triedTab
  {
    if s in b.newTab {
      var b1, c1 := b.(newTab := b.newTab - {s}), c.(newTab := c.newTab - {s});
      assert Refs(b1, b.newTab[s]) == Refs(c1, b.newTab[s]);
    }
  }

  lemma TouchSame(b: Book, svc: Service, f: Entry -> Entry)
    requires svc.ip in b.entries ==> f(b.entries[svc.ip]) == b.entries[svc.ip]
    ensures Touch(b, svc, f) == b
  {
  }
}
