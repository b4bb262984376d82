/**
 The rolling bloom filter: each key sets a few two-bit lanes to the number of the current
 generation, 1 to 3, and starting a generation wipes the lanes of the oldest one. The hash is a
 parameter.
 */
module RollingBloom {
  import opened Lanes

  type Key = seq<bv8>

  datatype Place = Place(w: nat, b: bv6)

  type Hasher = (nat, nat, Key) -> bv32

  function LaneAt(d: seq<bv64>, p: Place): nat {
    if 2 * p.w + 1 < |d| then Lane(d[2 * p.w], d[2 * p.w + 1], p.b) else 0
  }

  function PlaceOf(h: bv32, size: nat): Place
    requires size > 0
  {
    Place((h >> 6) as nat % size / 2, (h & 0x3F) as bv6)
  }

  predicate Generation(g: nat) { 1 <= g <= 3 }

  function Next(g: nat): nat { if g + 1 == 4 then 1 else g + 1 }

  /** How many generations ago `v` was current. */
  function Age(cur: nat, v: nat): nat
    requires Generation(cur) && Generation(v)
  {
    if v <= cur then cur - v else cur + 3 - v
  }

  /** The hashes and their number. */
  datatype Params = Params(hash: Hasher, nHashFuncs: nat, tweak: nat)

  function PlaceFor(p: Params, size: nat, key: Key, n: nat): Place
    requires size > 0
  {
    PlaceOf(p.hash(p.tweak, n, key), size)
  }

  /** A lane that was set at most `age` generations ago. */
  ghost predicate Fresh(v: nat, cur: nat, age: nat)
    requires Generation(cur)
  {
    Generation(v) && Age(cur, v) <= age
  }

  /** Each of a key's lanes was set at most `age` generations ago. */
  ghost predicate Marked(p: Params, d: seq<bv64>, cur: nat, age: nat, key: Key)
    requires Generation(cur)
  {
    |d| > 0 && forall n :: 0 <= n < p.nHashFuncs ==> Fresh(LaneAt(d, PlaceFor(p, |d|, key, n)), cur, age)
  }

  ghost predicate AllMarked(p: Params, d: seq<bv64>, cur: nat, age: nat, keys: seq<Key>)
    requires Generation(cur)
  {
    forall i :: 0 <= i < |keys| ==> Marked(p, d, cur, age, keys[i])
  }

  /** The lanes of generation `g` are cleared and no others. */
  ghost predicate Wiped(d: seq<bv64>, g: nat, d': seq<bv64>) {
    |d'| == |d| && forall p: Place :: LaneAt(d', p) == if LaneAt(d, p) == g then 0 else LaneAt(d, p)
  }

  /** Lane `p` is set to `g` and no other is changed. */
  ghost predicate Written(d: seq<bv64>, p: Place, g: nat, d': seq<bv64>) {
    |d'| == |d| && forall q: Place :: LaneAt(d', q) == if q == p then g else LaneAt(d, q)
  }

  lemma WipeKeeps(p: Params, d: seq<bv64>, cur: nat, age: nat, key: Key, d': seq<bv64>)
    requires Generation(cur) && age <= 1 && Marked(p, d, cur, age, key) && Wiped(d, Next(cur), d')
    ensures Marked(p, d', Next(cur), age + 1, key)
  {
    hide LaneAt, PlaceFor;
    forall n | 0 <= n < p.nHashFuncs
      ensures Fresh(LaneAt(d', PlaceFor(p, |d'|, key, n)), Next(cur), age + 1)
    {
      var q := PlaceFor(p, |d|, key, n);
      assert Fresh(LaneAt(d, q), cur, age);
      assert LaneAt(d', q) == if LaneAt(d, q) == Next(cur) then 0 else LaneAt(d, q);
    }
  }

  lemma WriteKeeps(p: Params, d: seq<bv64>, cur: nat, age: nat, key: Key, place: Place, d': seq<bv64>)
    requires Generation(cur) && Marked(p, d, cur, age, key) && Written(d, place, cur, d')
    ensures Marked(p, d', cur, age, key)
  {
    hide LaneAt, PlaceFor;
    forall n | 0 <= n < p.nHashFuncs
      ensures Fresh(LaneAt(d', PlaceFor(p, |d'|, key, n)), cur, age)
    {
      var q := PlaceFor(p, |d|, key, n);
      assert Fresh(LaneAt(d, q), cur, age);
      assert LaneAt(d', q) == if q == place then cur else LaneAt(d, q);
    }
  }

  ghost predicate IsPlace(p: Params, size: nat, key: Key, upTo: nat, q: Place)
    requires size > 0
  {
    exists n :: 0 <= n < upTo && PlaceFor(p, size, key, n) == q
  }

  /** The lanes after an insert: the key's own are set to the current generation, and no other has changed. */
  ghost predicate Stamped(p: Params, d: seq<bv64>, g: nat, key: Key, upTo: nat, d': seq<bv64>) {
    |d'| == |d| > 0 && forall q: Place :: LaneAt(d', q) == if IsPlace(p, |d|, key, upTo, q) then g else LaneAt(d, q)
  }

  lemma StampNone(p: Params, d: seq<bv64>, g: nat, key: Key)
    requires |d| > 0
    ensures Stamped(p, d, g, key, 0, d)
  {
  }

  lemma StampNext(p: Params, d: seq<bv64>, g: nat, key: Key, n: nat, d1: seq<bv64>, d2: seq<bv64>)
    requires Stamped(p, d, g, key, n, d1) && Written(d1, PlaceFor(p, |d|, key, n), g, d2)
    ensures Stamped(p, d, g, key, n + 1, d2)
  {
    hide LaneAt, PlaceFor;
    forall q: Place
      ensures LaneAt(d2, q) == if IsPlace(p, |d|, key, n + 1, q) then g else LaneAt(d, q)
    {
      assert IsPlace(p, |d|, key, n + 1, q) <==> IsPlace(p, |d|, key, n, q) || q == PlaceFor(p, |d|, key, n);
    }
  }

  /** What an insert does to the lanes: perhaps one generation wiped, then the key stamped. */
  ghost predicate Inserted(p: Params, d: seq<bv64>, g: nat, wipe: bool, key: Key, d': seq<bv64>) {
    && |d'| == |d| > 0
    && forall q: Place :: LaneAt(d', q) ==
         if IsPlace(p, |d|, key, p.nHashFuncs, q) then g else if wipe && LaneAt(d, q) == g then 0 else LaneAt(d, q)
  }

  lemma StampInserted(p: Params, d: seq<bv64>, g: nat, wipe: bool, key: Key, d1: seq<bv64>, d': seq<bv64>)
    requires if wipe then Wiped(d, g, d1) else d1 == d
    requires Stamped(p, d1, g, key, p.nHashFuncs, d')
    ensures Inserted(p, d, g, wipe, key, d')
  {
    hide LaneAt, IsPlace;
  }

  // ---------- the last keys ----------

  /** The keys inserted since the last reset, cut into generations. */
  datatype Past = Past(dropped: seq<Key>, oldest: seq<Key>, previous: seq<Key>, current: seq<Key>)

  function All(past: Past): seq<Key> { past.dropped + past.oldest + past.previous + past.current }

  /** Generations are filled before the next one is started. */
  ghost predicate Cut(past: Past, perGeneration: nat, thisGeneration: nat) {
    && |past.current| == thisGeneration && (perGeneration > 0 ==> thisGeneration <= perGeneration)
    && (past.dropped != [] ==> |past.oldest| == perGeneration)
    && (perGeneration == 0 ==> past.dropped == past.oldest == past.previous == [])
    && (past.oldest != [] ==> |past.previous| == perGeneration)
    && |past.oldest| <= perGeneration && |past.previous| <= perGeneration
  }

  ghost predicate Remembers(p: Params, d: seq<bv64>, cur: nat, past: Past)
    requires Generation(cur)
  {
    && AllMarked(p, d, cur, 0, past.current) && AllMarked(p, d, cur, 1, past.previous) && AllMarked(p, d, cur, 2, past.oldest)
  }

  lemma WipeRemembers(p: Params, d: seq<bv64>, cur: nat, past: Past, d': seq<bv64>)
    requires Generation(cur) && Remembers(p, d, cur, past) && Wiped(d, Next(cur), d')
    ensures Remembers(p, d', Next(cur), Past(past.dropped + past.oldest, past.previous, past.current, []))
  {
    hide Marked, Wiped;
    forall i | 0 <= i < |past.current|
      ensures Marked(p, d', Next(cur), 1, past.current[i])
    {
      WipeKeeps(p, d, cur, 0, past.current[i], d');
    }
    forall i | 0 <= i < |past.previous|
      ensures Marked(p, d', Next(cur), 2, past.previous[i])
    {
      WipeKeeps(p, d, cur, 1, past.previous[i], d');
    }
  }

  lemma WriteAll(p: Params, d: seq<bv64>, cur: nat, age: nat, keys: seq<Key>, place: Place, d': seq<bv64>)
    requires Generation(cur) && AllMarked(p, d, cur, age, keys) && Written(d, place, cur, d')
    ensures AllMarked(p, d', cur, age, keys)
  {
    hide Marked, Written;
    forall i | 0 <= i < |keys|
      ensures Marked(p, d', cur, age, keys[i])
    {
      WriteKeeps(p, d, cur, age, keys[i], place, d');
    }
  }

  lemma WriteRemembers(p: Params, d: seq<bv64>, cur: nat, past: Past, place: Place, d': seq<bv64>)
    requires Generation(cur) && Remembers(p, d, cur, past) && Written(d, place, cur, d')
    ensures Remembers(p, d', cur, past)
  {
    hide AllMarked, Written;
    WriteAll(p, d, cur, 0, past.current, place, d');
    WriteAll(p, d, cur, 1, past.previous, place, d');
    WriteAll(p, d, cur, 2, past.oldest, place, d');
  }

  /** All lanes of a key are set. */
  ghost predicate Present(p: Params, d: seq<bv64>, key: Key) {
    |d| > 0 && forall n :: 0 <= n < p.nHashFuncs ==> LaneAt(d, PlaceFor(p, |d|, key, n)) != 0
  }

  lemma MarkedPresent(p: Params, d: seq<bv64>, cur: nat, age: nat, key: Key)
    requires Generation(cur) && Marked(p, d, cur, age, key)
    ensures Present(p, d, key)
  {
    hide LaneAt, PlaceFor;
    forall n | 0 <= n < p.nHashFuncs
      ensures LaneAt(d, PlaceFor(p, |d|, key, n)) != 0
    {
      assert Fresh(LaneAt(d, PlaceFor(p, |d|, key, n)), cur, age);
    }
  }

  /**
   The filter holds the keys of the current generation and of the two before it: two full
   generations and what was inserted since.
   */
  lemma LastPresent(p: Params, d: seq<bv64>, cur: nat, past: Past, perGeneration: nat, thisGeneration: nat, i: nat)
    requires Generation(cur) && Remembers(p, d, cur, past) && Cut(past, perGeneration, thisGeneration)
    requires i < |All(past)| && |All(past)| - i <= 2 * perGeneration + thisGeneration
    ensures Present(p, d, All(past)[i])
  {
    hide Marked, Present;
    var a, b, c := |past.dropped|, |past.dropped| + |past.oldest|, |past.dropped| + |past.oldest| + |past.previous|;
    assert i >= a;
    if i < b {
      assert All(past)[i] == past.oldest[i - a];
      MarkedPresent(p, d, cur, 2, past.oldest[i - a]);
    } else if i < c {
      assert All(past)[i] == past.previous[i - b];
      MarkedPresent(p, d, cur, 1, past.previous[i - b]);
    } else {
      assert All(past)[i] == past.current[i - c];
      MarkedPresent(p, d, cur, 0, past.current[i - c]);
    }
  }

  // ---------- and no others ----------

  /** Some of the keys has this place. */
  ghost predicate Hit(p: Params, size: nat, keys: seq<Key>, q: Place)
    requires size > 0
  {
    exists i :: 0 <= i < |keys| && IsPlace(p, size, keys[i], p.nHashFuncs, q)
  }

  function Keys(past: Past, age: nat): seq<Key> {
    if age == 0 then past.current else if age == 1 then past.previous else past.oldest
  }

  /** A lane that is set was set by a key of the generation it names. */
  ghost predicate Grounded(p: Params, d: seq<bv64>, cur: nat, past: Past)
    requires Generation(cur)
  {
    |d| > 0 && forall q: Place :: LaneAt(d, q) != 0 ==>
      Generation(LaneAt(d, q)) && Hit(p, |d|, Keys(past, Age(cur, LaneAt(d, q))), q)
  }

  lemma WipeGrounded(p: Params, d: seq<bv64>, cur: nat, past: Past, d': seq<bv64>)
    requires Generation(cur) && Grounded(p, d, cur, past) && Wiped(d, Next(cur), d')
    ensures Grounded(p, d', Next(cur), Past(past.dropped + past.oldest, past.previous, past.current, []))
  {
    hide LaneAt, Hit;
    var after := Past(past.dropped + past.oldest, past.previous, past.current, []);
    forall q: Place | LaneAt(d', q) != 0
      ensures Generation(LaneAt(d', q)) && Hit(p, |d'|, Keys(after, Age(Next(cur), LaneAt(d', q))), q)
    {
      assert LaneAt(d', q) == if LaneAt(d, q) == Next(cur) then 0 else LaneAt(d, q);
    }
  }

  lemma StampGrounded(p: Params, d: seq<bv64>, cur: nat, past: Past, key: Key, d': seq<bv64>)
    requires Generation(cur) && Grounded(p, d, cur, past) && Stamped(p, d, cur, key, p.nHashFuncs, d')
    ensures Grounded(p, d', cur, past.(current := past.current + [key]))
  {
    hide LaneAt, IsPlace;
    var after := past.(current := past.current + [key]);
    forall q: Place | LaneAt(d', q) != 0
      ensures Generation(LaneAt(d', q)) && Hit(p, |d'|, Keys(after, Age(cur, LaneAt(d', q))), q)
    {
      if IsPlace(p, |d|, key, p.nHashFuncs, q) {
        assert after.current[|past.current|] == key;
      } else {
        var keys := Keys(past, Age(cur, LaneAt(d, q)));
        var i :| 0 <= i < |keys| && IsPlace(p, |d|, keys[i], p.nHashFuncs, q);
        assert Keys(after, Age(cur, LaneAt(d, q)))[i] == keys[i];
      }
    }
  }

  /** A place is set exactly if some key of the last three generations has it. */
  lemma SetExact(p: Params, d: seq<bv64>, cur: nat, past: Past, q: Place)
    requires Generation(cur) && Remembers(p, d, cur, past) && Grounded(p, d, cur, past)
    ensures LaneAt(d, q) != 0 <==> Hit(p, |d|, past.oldest + past.previous + past.current, q)
  {
    hide LaneAt, PlaceFor, Generation, Age, AllMarked, Marked, Present, IsPlace;
    var all := past.oldest + past.previous + past.current;
    if LaneAt(d, q) != 0 {
      var keys := Keys(past, Age(cur, LaneAt(d, q)));
      var i :| 0 <= i < |keys| && IsPlace(p, |d|, keys[i], p.nHashFuncs, q);
      KeyIn(past, Age(cur, LaneAt(d, q)), i);
    }
    forall i | 0 <= i < |all| && IsPlace(p, |d|, all[i], p.nHashFuncs, q)
      ensures LaneAt(d, q) != 0
    {
      RememberedPresent(p, d, cur, past, i);
      PresentAt(p, d, all[i], q);
    }
  }

  lemma KeyIn(past: Past, age: nat, i: nat)
    requires i < |Keys(past, age)|
    ensures var all := past.oldest + past.previous + past.current;
            exists j :: 0 <= j < |all| && all[j] == Keys(past, age)[i]
  {
    var all := past.oldest + past.previous + past.current;
    var j := i + if age == 0 then |past.oldest| + |past.previous| else if age == 1 then |past.oldest| else 0;
    assert all[j] == Keys(past, age)[i];
  }

  lemma RememberedPresent(p: Params, d: seq<bv64>, cur: nat, past: Past, i: nat)
    requires Generation(cur) && Remembers(p, d, cur, past) && i < |past.oldest + past.previous + past.current|
    ensures Present(p, d, (past.oldest + past.previous + past.current)[i])
  {
    hide Marked, Present;
    var a, b := |past.oldest|, |past.oldest| + |past.previous|;
    if i < a {
      MarkedPresent(p, d, cur, 2, past.oldest[i]);
    } else if i < b {
      MarkedPresent(p, d, cur, 1, past.previous[i - a]);
    } else {
      MarkedPresent(p, d, cur, 0, past.current[i - b]);
    }
  }

  lemma PresentAt(p: Params, d: seq<bv64>, key: Key, q: Place)
    requires Present(p, d, key) && IsPlace(p, |d|, key, p.nHashFuncs, q)
    ensures LaneAt(d, q) != 0
  {
    hide LaneAt, PlaceFor;
  }

  /** The keys of the last three generations are the last ones inserted. */
  lemma RememberedIsLast(past: Past, perGeneration: nat, thisGeneration: nat)
    requires Cut(past, perGeneration, thisGeneration)
    ensures past.oldest + past.previous + past.current == Last(All(past), 2 * perGeneration + thisGeneration)
  {
    var all := All(past);
    assert all[|past.dropped|..] == past.oldest + past.previous + past.current;
  }

  /** A key is reported exactly if each of its places is shared with one of the last keys inserted. */
  lemma PresentExact(p: Params, d: seq<bv64>, cur: nat, past: Past, perGeneration: nat, thisGeneration: nat, key: Key)
    requires Generation(cur) && Remembers(p, d, cur, past) && Grounded(p, d, cur, past) && Cut(past, perGeneration, thisGeneration)
    ensures Present(p, d, key) <==>
            forall n :: 0 <= n < p.nHashFuncs ==> Hit(p, |d|, Last(All(past), 2 * perGeneration + thisGeneration), PlaceFor(p, |d|, key, n))
  {
    hide Remembers, Cut, Hit, LaneAt, PlaceFor, All, Last;
    RememberedIsLast(past, perGeneration, thisGeneration);
    forall n | 0 <= n < p.nHashFuncs
      ensures LaneAt(d, PlaceFor(p, |d|, key, n)) != 0 <==>
              Hit(p, |d|, Last(All(past), 2 * perGeneration + thisGeneration), PlaceFor(p, |d|, key, n))
    {
      SetExact(p, d, cur, past, PlaceFor(p, |d|, key, n));
    }
  }

  // ---------- the filter ----------

  class Filter {
    const nEntriesPerGeneration: nat
    const nHashFuncs: nat
    const hash: Hasher
    const data: array<bv64>
    var nEntriesThisGeneration: nat
    var nGeneration: nat
    var nTweak: nat
    /** The keys since the last reset. */
    ghost var past: Past

    ghost function P(): Params
      reads this
    {
      Params(hash, nHashFuncs, nTweak)
    }

    ghost predicate Valid()
      reads this, data
    {
      && data.Length > 0 && data.Length % 2 == 0 && Generation(nGeneration)
      && Cut(past, nEntriesPerGeneration, nEntriesThisGeneration) && Remembers(P(), data[..], nGeneration, past)
      && Grounded(P(), data[..], nGeneration, past)
    }

    /** A filter for the last `nElements` keys, with `words` pairs of words. */
    constructor (nElements: nat, words: nat, nHashFuncs: nat, hash: Hasher, tweak: nat)
      requires words > 0
      ensures Valid() && All(past) == [] && fresh(data) && nElements <= 2 * nEntriesPerGeneration <= nElements + 1
    {
      nEntriesPerGeneration := (nElements + 1) / 2;
      this.nHashFuncs, this.hash := nHashFuncs, hash;
      data := new bv64[2 * words](_ => 0);
      nTweak, nEntriesThisGeneration, nGeneration := tweak, 0, 1;
      past := Past([], [], [], []);
      new;
      ZeroLanes(data[..]);
    }

    method Reset(tweak: nat)
      requires Valid()
      modifies this, data
      ensures Valid() && All(past) == [] && nTweak == tweak
      ensures forall p: Place :: LaneAt(data[..], p) == 0
    {
      hide Marked;
      nTweak, nEntriesThisGeneration, nGeneration := tweak, 0, 1;
      past := Past([], [], [], []);
      for i := 0 to data.Length
        invariant forall j :: 0 <= j < i ==> data[j] == 0
        modifies data
      {
        data[i] := 0;
      }
      ZeroLanes(data[..]);
    }

    /** Clear the lanes of the generation that is about to be reused. */
    method Wipe()
      requires Generation(nGeneration) && data.Length % 2 == 0
      modifies data
      ensures Wiped(old(data[..]), nGeneration, data[..])
    {
      hide Lane, Mask, And, LaneAt;
      var v, w := nGeneration % 2 == 1, nGeneration / 2 == 1;
      var p := 0;
      while p < data.Length
        invariant 0 <= p <= data.Length && p % 2 == 0
        invariant forall j :: p <= j < data.Length ==> data[j] == old(data[j])
        invariant WipedUpTo(old(data[..]), p, nGeneration, data[..])
      {
        var p1, p2 := data[p], data[p + 1];
        ghost var before := data[..];
        data[p], data[p + 1] := And(p1, Mask(p1, p2, v, w)), And(p2, Mask(p1, p2, v, w));
        assert data[..] == before[p := And(p1, Mask(p1, p2, v, w))][p + 1 := And(p2, Mask(p1, p2, v, w))];
        WipePair(old(data[..]), before, p, nGeneration, data[..]);
        p := p + 2;
      }
      WipedAll(old(data[..]), p, nGeneration, data[..]);
    }

    method SetLane(p: Place)
      requires Generation(nGeneration) && 2 * p.w + 1 < data.Length
      modifies data
      ensures Written(old(data[..]), p, nGeneration, data[..])
    {
      hide Lane, Write;
      var lo, hi := data[2 * p.w], data[2 * p.w + 1];
      data[2 * p.w] := Write(lo, p.b, nGeneration % 2 == 1);
      data[2 * p.w + 1] := Write(hi, p.b, nGeneration / 2 == 1);
      forall q: Place
        ensures LaneAt(data[..], q) == if q == p then nGeneration else LaneAt(old(data[..]), q)
      {
        WrittenLane(lo, hi, p.b, nGeneration, q.b);
      }
    }

    /** Insert a key, starting a new generation if the current one is full. */
    method Insert(key: Key)
      requires Valid()
      modifies this, data
      ensures Valid() && All(past) == old(All(past)) + [key] && nTweak == old(nTweak)
      ensures var switch := old(nEntriesThisGeneration) == nEntriesPerGeneration;
              && nGeneration == (if switch then Next(old(nGeneration)) else old(nGeneration))
              && nEntriesThisGeneration == (if switch then 0 else old(nEntriesThisGeneration)) + 1
              && Inserted(P(), old(data[..]), nGeneration, switch, key, data[..])
    {
      hide Remembers, Stamped, Wiped, Inserted, Grounded;
      ghost var switch := nEntriesThisGeneration == nEntriesPerGeneration;
      if nEntriesThisGeneration == nEntriesPerGeneration {
        StartGeneration();
      }
      nEntriesThisGeneration := nEntriesThisGeneration + 1;
      ghost var before := data[..];
      MarkKey(key);
      StampInserted(P(), old(data[..]), nGeneration, switch, key, before, data[..]);
      StampGrounded(P(), before, nGeneration, past, key, data[..]);
      past := past.(current := past.current + [key]);
    }

    method StartGeneration()
      requires data.Length % 2 == 0 && Generation(nGeneration) && Remembers(P(), data[..], nGeneration, past)
      requires Grounded(P(), data[..], nGeneration, past)
      modifies this`nEntriesThisGeneration, this`nGeneration, this`past, data
      ensures Generation(nGeneration) && Remembers(P(), data[..], nGeneration, past) && Grounded(P(), data[..], nGeneration, past)
      ensures nEntriesThisGeneration == 0 && nGeneration == Next(old(nGeneration)) && Wiped(old(data[..]), nGeneration, data[..])
      ensures past == Past(old(past).dropped + old(past).oldest, old(past).previous, old(past).current, [])
    {
      hide Remembers, Wiped, Grounded;
      nEntriesThisGeneration := 0;
      nGeneration := nGeneration + 1;
      if nGeneration == 4 {
        nGeneration := 1;
      }
      Wipe();
      WipeRemembers(P(), old(data[..]), old(nGeneration), past, data[..]);
      WipeGrounded(P(), old(data[..]), old(nGeneration), past, data[..]);
      past := Past(past.dropped + past.oldest, past.previous, past.current, []);
    }

    /** Set all lanes of a key to the current generation. */
    method MarkKey(key: Key)
      requires data.Length > 0 && data.Length % 2 == 0 && Generation(nGeneration) && Remembers(P(), data[..], nGeneration, past)
      modifies data
      ensures Remembers(P(), data[..], nGeneration, past.(current := past.current + [key]))
      ensures Stamped(P(), old(data[..]), nGeneration, key, nHashFuncs, data[..])
    {
      hide Remembers, Written, LaneAt, PlaceOf, Stamped;
      StampNone(P(), data[..], nGeneration, key);
      for n := 0 to nHashFuncs
        invariant Stamped(P(), old(data[..]), nGeneration, key, n, data[..])
        invariant Remembers(P(), data[..], nGeneration, past) && MarkedUpTo(P(), data[..], nGeneration, key, n)
      {
        var place := PlaceOf(hash(nTweak, n, key), data.Length);
        InRange(hash(nTweak, n, key), data.Length);
        ghost var before := data[..];
        SetLane(place);
        assert place == PlaceFor(P(), |before|, key, n);
        WriteRemembers(P(), before, nGeneration, past, place, data[..]);
        WriteFresh(P(), before, nGeneration, key, n, data[..]);
        StampNext(P(), old(data[..]), nGeneration, key, n, before, data[..]);
      }
      MarkedAppend(P(), data[..], nGeneration, past, key);
    }

    lemma KnownValid()
      requires Valid()
      ensures data.Length > 0 && data.Length % 2 == 0 && Generation(nGeneration) && P() == Params(hash, nHashFuncs, nTweak)
      ensures Cut(past, nEntriesPerGeneration, nEntriesThisGeneration) && Remembers(P(), data[..], nGeneration, past)
      ensures Grounded(P(), data[..], nGeneration, past)
    {
      hide Cut, Remembers, Grounded;
    }

    /** Whether all lanes of a key are set; so they are for each of the last keys inserted. */
    method Contains(key: Key) returns (r: bool)
      requires Valid()
      ensures r <==> Present(P(), data[..], key)
      ensures r <==> forall n :: 0 <= n < nHashFuncs ==>
                Hit(P(), data.Length, Last(All(past), 2 * nEntriesPerGeneration + nEntriesThisGeneration), PlaceFor(P(), data.Length, key, n))
      ensures key in Last(All(past), 2 * nEntriesPerGeneration + nEntriesThisGeneration) ==> r
    {
      hide *;
      KnownValid();
      PresentExact(P(), data[..], nGeneration, past, nEntriesPerGeneration, nEntriesThisGeneration, key);
      PresentNone(P(), data[..], key);
      InLast(P(), data[..], nGeneration, past, nEntriesPerGeneration, nEntriesThisGeneration, key);
      for n := 0 to nHashFuncs
        invariant PresentUpTo(P(), data[..], key, n)
      {
        var h := hash(nTweak, n, key);
        var pos := (h >> 6) as nat % data.Length;
        var bit := (h & 0x3F) as bv6;
        InRange(h, data.Length);
        LaneTest(P(), data[..], key, n, h);
        if !Bit(Or(data[pos - pos % 2], data[pos - pos % 2 + 1]), bit) {
          return false;
        }
      }
      PresentAll(P(), data[..], key);
      return true;
    }
  }

  ghost predicate PresentUpTo(p: Params, d: seq<bv64>, key: Key, n: nat) {
    |d| > 0 && forall m :: 0 <= m < n ==> LaneAt(d, PlaceFor(p, |d|, key, m)) != 0
  }

  lemma PresentNone(p: Params, d: seq<bv64>, key: Key)
    requires |d| > 0
    ensures PresentUpTo(p, d, key, 0)
  {
  }

  lemma PresentAll(p: Params, d: seq<bv64>, key: Key)
    requires PresentUpTo(p, d, key, p.nHashFuncs)
    ensures Present(p, d, key)
  {
    hide LaneAt, PlaceFor;
  }

  /** The test of one lane. */
  lemma LaneTest(p: Params, d: seq<bv64>, key: Key, n: nat, h: bv32)
    requires |d| > 0 && |d| % 2 == 0 && h == p.hash(p.tweak, n, key) && n < p.nHashFuncs && PresentUpTo(p, d, key, n)
    ensures var pos := (h >> 6) as nat % |d|;
            && pos - pos % 2 + 1 < |d|
            && if Bit(Or(d[pos - pos % 2], d[pos - pos % 2 + 1]), (h & 0x3F) as bv6) then PresentUpTo(p, d, key, n + 1) else !Present(p, d, key)
  {
    hide Lane, Bit, Or;
    InRange(h, |d|);
    var pos := (h >> 6) as nat % |d|;
    EitherBit(d[pos - pos % 2], d[pos - pos % 2 + 1], (h & 0x3F) as bv6);
    var q := PlaceFor(p, |d|, key, n);
    assert LaneAt(d, q) == Lane(d[pos - pos % 2], d[pos - pos % 2 + 1], (h & 0x3F) as bv6);
    hide LaneAt, PlaceFor;
  }

  function Last(s: seq<Key>, n: nat): seq<Key> { if |s| <= n then s else s[|s| - n..] }

  lemma InRange(h: bv32, size: nat)
    requires size > 0 && size % 2 == 0
    ensures var p := PlaceOf(h, size); var pos := (h >> 6) as nat % size;
            2 * p.w + 1 < size && pos - pos % 2 == 2 * p.w
  {
  }

  lemma EitherBit(lo: bv64, hi: bv64, b: bv6)
    ensures Bit(Or(lo, hi), b) <==> Lane(lo, hi, b) != 0
  {
    hide Bit, Or;
    OrBit(lo, hi, b);
  }

  ghost predicate MarkedUpTo(p: Params, d: seq<bv64>, cur: nat, key: Key, n: nat)
    requires Generation(cur)
  {
    |d| > 0 && forall m :: 0 <= m < n ==> Fresh(LaneAt(d, PlaceFor(p, |d|, key, m)), cur, 0)
  }

  lemma WriteFresh(p: Params, d: seq<bv64>, cur: nat, key: Key, n: nat, d': seq<bv64>)
    requires Generation(cur) && MarkedUpTo(p, d, cur, key, n) && Written(d, PlaceFor(p, |d|, key, n), cur, d')
    ensures MarkedUpTo(p, d', cur, key, n + 1)
  {
    hide LaneAt, PlaceFor;
    forall m | 0 <= m < n + 1
      ensures Fresh(LaneAt(d', PlaceFor(p, |d'|, key, m)), cur, 0)
    {
      var q := PlaceFor(p, |d|, key, m);
      assert m < n ==> Fresh(LaneAt(d, q), cur, 0);
      assert LaneAt(d', q) == if q == PlaceFor(p, |d|, key, n) then cur else LaneAt(d, q);
    }
  }

  lemma MarkedAppend(p: Params, d: seq<bv64>, cur: nat, past: Past, key: Key)
    requires Generation(cur) && Remembers(p, d, cur, past) && MarkedUpTo(p, d, cur, key, p.nHashFuncs)
    ensures Remembers(p, d, cur, past.(current := past.current + [key]))
  {
    hide LaneAt, PlaceFor;
    assert Marked(p, d, cur, 0, key);
  }

  lemma InLast(p: Params, d: seq<bv64>, cur: nat, past: Past, perGeneration: nat, thisGeneration: nat, key: Key)
    requires Generation(cur) && Remembers(p, d, cur, past) && Cut(past, perGeneration, thisGeneration)
    ensures key in Last(All(past), 2 * perGeneration + thisGeneration) ==> Present(p, d, key)
  {
    hide Remembers, Cut, Present, All;
    var all, n := All(past), 2 * perGeneration + thisGeneration;
    if key in Last(all, n) {
      var j :| 0 <= j < |Last(all, n)| && Last(all, n)[j] == key;
      var i := if |all| <= n then j else |all| - n + j;
      assert all[i] == key;
      LastPresent(p, d, cur, past, perGeneration, thisGeneration, i);
    }
  }

  ghost predicate WipedUpTo(d: seq<bv64>, n: nat, g: nat, d': seq<bv64>) {
    forall q: Place :: 2 * q.w < n ==> LaneAt(d', q) == Cleared(LaneAt(d, q), g)
  }

  lemma WipePair(d: seq<bv64>, d1: seq<bv64>, n: nat, g: nat, d': seq<bv64>)
    requires |d1| == |d| && n + 1 < |d| && n % 2 == 0 && Generation(g) && d1[n] == d[n] && d1[n + 1] == d[n + 1] && WipedUpTo(d, n, g, d1)
    requires var m := Mask(d[n], d[n + 1], g % 2 == 1, g / 2 == 1); d' == d1[n := And(d[n], m)][n + 1 := And(d[n + 1], m)]
    ensures WipedUpTo(d, n + 2, g, d')
  {
    hide Lane, Mask, And;
    forall q: Place | 2 * q.w < n + 2
      ensures LaneAt(d', q) == Cleared(LaneAt(d, q), g)
    {
      if 2 * q.w == n {
        MaskedLane(d[n], d[n + 1], g, q.b);
      } else {
        assert 2 * q.w + 1 < n;
        assert LaneAt(d', q) == LaneAt(d1, q);
      }
    }
  }

  lemma WipedAll(d: seq<bv64>, n: nat, g: nat, d': seq<bv64>)
    requires |d'| == |d| <= n && Generation(g) && WipedUpTo(d, n, g, d')
    ensures Wiped(d, g, d')
  {
    hide Lane;
    forall q: Place
      ensures LaneAt(d', q) == if LaneAt(d, q) == g then 0 else LaneAt(d, q)
    {
      assert 2 * q.w >= n ==> LaneAt(d, q) == 0 && LaneAt(d', q) == 0;
    }
  }

  function Cleared(v: nat, g: nat): nat { if v == g then 0 else v }

  lemma ZeroLanes(d: seq<bv64>)
    requires forall i :: 0 <= i < |d| ==> d[i] == 0
    ensures forall p: Place :: LaneAt(d, p) == 0
  {
    forall p: Place
      ensures LaneAt(d, p) == 0
    {
      ZeroLane(p.b);
    }
  }

  lemma ZeroLane(b: bv6)
    ensures Lane(0, 0, b) == 0
  {
  }

  /** After any inserts into a new filter for `nElements` keys, the last `nElements` of them are found. */
  method InsertAll(nElements: nat, words: nat, nHashFuncs: nat, hash: Hasher, tweak: nat, keys: seq<Key>, key: Key) returns (found: bool)
    requires words > 0
    ensures key in Last(keys, nElements) ==> found
  {
    var f := new Filter(nElements, words, nHashFuncs, hash, tweak);
    for i := 0 to |keys|
      invariant f.Valid() && fresh(f) && fresh(f.data) && All(f.past) == keys[..i] && 2 * f.nEntriesPerGeneration >= nElements
    {
      f.Insert(keys[i]);
    }
    assert keys[..|keys|] == keys;
    if key in Last(keys, nElements) {
      LastMore(keys, nElements, 2 * f.nEntriesPerGeneration + f.nEntriesThisGeneration, key);
    }
    found := f.Contains(key);
  }

  lemma LastMore(s: seq<Key>, n: nat, m: nat, key: Key)
    requires n <= m && key in Last(s, n)
    ensures key in Last(s, m)
  {
    var j :| 0 <= j < |Last(s, n)| && Last(s, n)[j] == key;
    var i := if |s| <= n then j else |s| - n + j;
    assert |s| > m ==> Last(s, m)[i - (|s| - m)] == key;
    assert |s| <= m ==> Last(s, m)[i] == key;
  }
}
