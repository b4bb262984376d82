/**
 The cuckoo cache: a set of elements, each in one of eight slots given by its hashes, with two
 flags per slot: discardable, and inserted in the current epoch. An insert may displace a chain
 of elements and, when the chain gets too long, drops the last.
 */
module Cuckoo {
  import opened Basics
  import opened Bits
  import opened Numbers

  type Element = nat

  /** The eight hashes of an element, before they are cut down to the table. */
  type Hasher = (Element, nat) -> nat

  datatype Cell = Cell(e: Element, kept: bool, recent: bool)

  // ---------- what a table holds ----------

  ghost function KeptIn(c: Cell): multiset<Element> { if c.kept then multiset{c.e} else multiset{} }

  /** The elements in slots that are not discardable. */
  ghost function Kept(cells: seq<Cell>): multiset<Element> {
    if cells == [] then multiset{} else Kept(cells[..|cells| - 1]) + KeptIn(cells[|cells| - 1])
  }

  function RecentIn(c: Cell): nat { if c.kept && c.recent then 1 else 0 }

  /** The number of such elements that belong to the current epoch. */
  ghost function Recent(cells: seq<Cell>): nat {
    if cells == [] then 0 else Recent(cells[..|cells| - 1]) + RecentIn(cells[|cells| - 1])
  }

  lemma SetCell(cells: seq<Cell>, i: nat, c: Cell)
    requires i < |cells|
    ensures Kept(cells[i := c]) + KeptIn(cells[i]) == Kept(cells) + KeptIn(c)
    ensures Recent(cells[i := c]) + RecentIn(cells[i]) == Recent(cells) + RecentIn(c)
  {
    SetKept(cells, i, c);
    SetRecent(cells, i, c);
  }

  lemma {:induction false} SetKept(cells: seq<Cell>, i: nat, c: Cell)
    requires i < |cells|
    ensures Kept(cells[i := c]) + KeptIn(cells[i]) == Kept(cells) + KeptIn(c)
  {
    hide KeptIn;
    var n := |cells| - 1;
    if i < n {
      SetKept(cells[..n], i, c);
      assert cells[i := c][..n] == cells[..n][i := c];
      Swap(Kept(cells[..n][i := c]), KeptIn(cells[n]), KeptIn(cells[i]), Kept(cells[..n]), KeptIn(c));
    } else {
      assert cells[i := c][..n] == cells[..n];
      Swap(Kept(cells[..n]), KeptIn(c), KeptIn(cells[n]), Kept(cells[..n]), KeptIn(cells[n]));
    }
  }

  lemma Swap(a: multiset<Element>, b: multiset<Element>, c: multiset<Element>, d: multiset<Element>, e: multiset<Element>)
    ensures a + c == d + e ==> a + b + c == d + b + e
    ensures a == d && c == e ==> a + b + c == d + e + b
  {
    assert a + b + c == (a + c) + b && d + b + e == (d + e) + b;
  }

  lemma {:induction false} SetRecent(cells: seq<Cell>, i: nat, c: Cell)
    requires i < |cells|
    ensures Recent(cells[i := c]) + RecentIn(cells[i]) == Recent(cells) + RecentIn(c)
  {
    hide RecentIn;
    var n := |cells| - 1;
    if i < n {
      SetRecent(cells[..n], i, c);
      assert cells[i := c][..n] == cells[..n][i := c];
    } else {
      assert cells[i := c][..n] == cells[..n];
    }
  }

  lemma {:induction false} KeptAt(cells: seq<Cell>, e: Element) returns (i: nat)
    requires e in Kept(cells)
    ensures i < |cells| && cells[i].kept && cells[i].e == e
  {
    var n := |cells| - 1;
    if e in KeptIn(cells[n]) {
      i := n;
    } else {
      i := KeptAt(cells[..n], e);
    }
  }

  lemma {:induction false} KeptHere(cells: seq<Cell>, i: nat)
    requires i < |cells| && cells[i].kept
    ensures cells[i].e in Kept(cells)
  {
    var n := |cells| - 1;
    if i < n {
      KeptHere(cells[..n], i);
    }
  }

  // ---------- epochs ----------

  function Aged(cells: seq<Cell>): seq<Cell> {
    seq(|cells|, i requires 0 <= i < |cells| =>
      if cells[i].recent then cells[i].(recent := false) else cells[i].(kept := false))
  }

  /** Ageing keeps as many elements as were in the current epoch, releases the rest, and starts an empty epoch. */
  lemma {:induction false} AgedFacts(cells: seq<Cell>)
    ensures Kept(Aged(cells)) <= Kept(cells) && |Kept(Aged(cells))| == Recent(cells) && Recent(Aged(cells)) == 0
  {
    if cells != [] {
      hide KeptIn, RecentIn, Aged;
      var n := |cells| - 1;
      AgedFacts(cells[..n]);
      AgedLast(cells);
      Grow(Kept(Aged(cells[..n])), Kept(cells[..n]), KeptIn(Aged(cells)[n]), KeptIn(cells[n]));
    } else {
      assert Aged(cells) == [];
    }
  }

  lemma AgedLast(cells: seq<Cell>)
    requires cells != []
    ensures var n := |cells| - 1;
            && |Aged(cells)| == |cells| && Aged(cells)[..n] == Aged(cells[..n])
            && KeptIn(Aged(cells)[n]) <= KeptIn(cells[n]) && RecentIn(Aged(cells)[n]) == 0
            && |KeptIn(Aged(cells)[n])| == RecentIn(cells[n])
  {
  }

  lemma Grow(a: multiset<Element>, b: multiset<Element>, c: multiset<Element>, d: multiset<Element>)
    requires a <= b && c <= d
    ensures a + c <= b + d
  {
  }

  datatype Epoch = Epoch(cells: seq<Cell>, counter: nat)

  ghost function EpochCheck(cells: seq<Cell>, counter: nat, epochSize: nat): Epoch {
    if counter != 0 then Epoch(cells, counter - 1)
    else if Recent(cells) >= epochSize then Epoch(Aged(cells), epochSize)
    else Epoch(cells, Max(1, Max(epochSize / 16, epochSize - Recent(cells))))
  }

  /**
   The check releases elements exactly if the countdown is over and the current epoch is full;
   then it releases all of older epochs and no other. The countdown goes on, or starts again with a
   whole epoch, or with as many inserts as the epoch lacks, but at least a sixteenth of it and one.
   */
  lemma EpochCheckExact(cells: seq<Cell>, counter: nat, epochSize: nat)
    ensures var c, over := EpochCheck(cells, counter, epochSize), counter == 0 && Recent(cells) >= epochSize;
            && |c.cells| == |cells| && (!over ==> c.cells == cells)
            && (over ==> c.counter == epochSize
                         && forall i :: 0 <= i < |cells| ==> c.cells[i] == Cell(cells[i].e, cells[i].kept && cells[i].recent, false))
            && (counter > 0 ==> c.counter + 1 == counter)
            && (counter == 0 && !over ==>
                  && c.counter >= 1 && c.counter >= epochSize - Recent(cells) && 16 * c.counter + 16 > epochSize
                  && (c.counter == 1 || c.counter == epochSize - Recent(cells) || 16 * c.counter <= epochSize))
  {
  }

  /** How many elements the current epoch can hold. */
  function EpochBound(epochSize: nat): nat { epochSize + Max(1, epochSize / 16) }

  /** The elements of the current epoch and the inserts until the next scan stay under the bound. */
  ghost predicate Paced(cells: seq<Cell>, counter: nat, epochSize: nat) { Recent(cells) + counter <= EpochBound(epochSize) }

  /** After the check there is room for one more. */
  lemma EpochCheckPaced(cells: seq<Cell>, counter: nat, epochSize: nat)
    requires Paced(cells, counter, epochSize)
    ensures var c := EpochCheck(cells, counter, epochSize); Recent(c.cells) + 1 + c.counter <= EpochBound(epochSize)
  {
    hide Aged;
    AgedFacts(cells);
  }

  // ---------- places ----------

  function Locs(hash: Hasher, size: nat, e: Element): (locs: seq<nat>)
    requires size > 0
    ensures |locs| == 8 && forall k :: 0 <= k < 8 ==> locs[k] < size
  {
    seq(8, k requires 0 <= k < 8 => hash(e, k) % size)
  }

  /** Every element that is kept sits in one of its own slots. */
  ghost predicate Placed(hash: Hasher, cells: seq<Cell>) {
    |cells| > 0 && forall i :: 0 <= i < |cells| && cells[i].kept ==> i in Locs(hash, |cells|, cells[i].e)
  }

  lemma AgedPlaced(hash: Hasher, cells: seq<Cell>)
    requires Placed(hash, cells)
    ensures Placed(hash, Aged(cells))
  {
    hide Locs;
  }

  lemma SetPlaced(hash: Hasher, cells: seq<Cell>, i: nat, c: Cell)
    requires Placed(hash, cells) && i < |cells| && (c.kept ==> i in Locs(hash, |cells|, c.e))
    ensures Placed(hash, cells[i := c])
  {
    hide Locs;
  }

  /** The first of an element's slots that holds it, in order of its hashes. */
  ghost predicate FirstAt(cells: seq<Cell>, locs: seq<nat>, e: Element, k: nat) {
    && k < |locs| && locs[k] < |cells| && cells[locs[k]].e == e
    && forall j :: 0 <= j < k ==> locs[j] < |cells| && cells[locs[j]].e != e
  }

  ghost predicate Nowhere(cells: seq<Cell>, locs: seq<nat>, e: Element) {
    forall k :: 0 <= k < |locs| ==> locs[k] < |cells| && cells[locs[k]].e != e
  }

  /** An element that is kept is found at its slots. */
  lemma KeptFound(hash: Hasher, cells: seq<Cell>, e: Element)
    requires Placed(hash, cells) && e in Kept(cells)
    ensures !Nowhere(cells, Locs(hash, |cells|, e), e)
  {
    hide Locs, Kept;
    var i := KeptAt(cells, e);
    assert i in Locs(hash, |cells|, e);
  }

  // ---------- the flags behind the cells ----------

  ghost function CellAt(table: seq<Element>, mem: seq<bv8>, flags: seq<bool>, i: nat): Cell {
    Cell(if i < |table| then table[i] else 0, i < 8 * |mem| && !BitAt(mem, i), i < |flags| && flags[i])
  }

  ghost function Cells(table: seq<Element>, mem: seq<bv8>, flags: seq<bool>): seq<Cell> {
    seq(|table|, i requires 0 <= i < |table| => CellAt(table, mem, flags, i))
  }

  ghost predicate Shaped(table: seq<Element>, mem: seq<bv8>, flags: seq<bool>) {
    |flags| == |table| <= 8 * |mem| && 0 < |table|
  }

  lemma CellsErase(table: seq<Element>, mem: seq<bv8>, flags: seq<bool>, n: nat)
    requires Shaped(table, mem, flags) && n < |table|
    ensures var mem' := mem[n / 8 := Set(mem[n / 8], n % 8)];
            Cells(table, mem', flags) == Cells(table, mem, flags)[n := Cells(table, mem, flags)[n].(kept := false)]
  {
    hide BitAt, Set;
    forall i | 0 <= i < |table|
      ensures BitAt(mem[n / 8 := Set(mem[n / 8], n % 8)], i) <==> n == i || BitAt(mem, i)
    {
      SetBit(mem, n, i);
    }
  }

  lemma CellsKeep(table: seq<Element>, mem: seq<bv8>, flags: seq<bool>, n: nat)
    requires Shaped(table, mem, flags) && n < |table|
    ensures var mem' := mem[n / 8 := Clear(mem[n / 8], n % 8)];
            Cells(table, mem', flags) == Cells(table, mem, flags)[n := Cells(table, mem, flags)[n].(kept := true)]
  {
    hide BitAt, Clear;
    forall i | 0 <= i < |table|
      ensures BitAt(mem[n / 8 := Clear(mem[n / 8], n % 8)], i) <==> n != i && BitAt(mem, i)
    {
      ClearBit(mem, n, i);
    }
  }

  lemma CellsWrite(table: seq<Element>, mem: seq<bv8>, flags: seq<bool>, n: nat, e: Element, recent: bool)
    requires Shaped(table, mem, flags) && n < |table|
    ensures Cells(table[n := e], mem, flags[n := recent])
            == Cells(table, mem, flags)[n := Cell(e, Cells(table, mem, flags)[n].kept, recent)]
  {
    hide BitAt;
  }

  lemma CellsFlag(table: seq<Element>, mem: seq<bv8>, flags: seq<bool>, n: nat, recent: bool)
    requires Shaped(table, mem, flags) && n < |table|
    ensures Cells(table, mem, flags[n := recent]) == Cells(table, mem, flags)[n := Cells(table, mem, flags)[n].(recent := recent)]
  {
    hide BitAt;
  }

  lemma CellsFresh(table: seq<Element>, mem: seq<bv8>, flags: seq<bool>)
    requires Shaped(table, mem, flags) && forall i :: 0 <= i < |mem| ==> mem[i] == 0xFF
    ensures var cells := Cells(table, mem, flags);
            (forall i :: 0 <= i < |cells| ==> !cells[i].kept) && Kept(cells) == multiset{} && Recent(cells) == 0
  {
    hide BitAt;
    OneBits(mem);
    NoneKept(Cells(table, mem, flags));
  }

  lemma {:induction false} NoneKept(cells: seq<Cell>)
    requires forall i :: 0 <= i < |cells| ==> !cells[i].kept
    ensures Kept(cells) == multiset{} && Recent(cells) == 0
  {
    if cells != [] {
      NoneKept(cells[..|cells| - 1]);
    }
  }

  // ---------- the length of an epoch ----------

  /** Meant to be 45% of the slots; the product is taken in 32 bits. */
  function EpochSizeFor(size: nat): nat { Max(1, 45 * size % 0x1_0000_0000 / 100) }

  /** An epoch is 45% of the slots exactly up to 2^26 of them. */
  lemma EpochShareExact(depth: nat)
    requires 1 <= depth <= 31
    ensures EpochSizeFor(Pow2(depth)) == Max(1, 45 * Pow2(depth) / 100) <==> depth <= 26
  {
    EpochPowers();
    EpochWrap(Pow2(depth));
    if depth <= 26 {
      Pow2Mono(depth, 26);
    } else {
      Pow2Mono(27, depth);
    }
  }

  lemma EpochWrap(size: nat)
    ensures 45 * size % 0x1_0000_0000 / 100 <= 42949672
    ensures size <= 67108864 ==> 45 * size % 0x1_0000_0000 == 45 * size
    ensures size >= 134217728 ==> 45 * size / 100 >= 60397977
  {
  }

  lemma EpochPowers()
    ensures Pow2(26) == 67108864 && Pow2(27) == 134217728
  {
    Pow2Values();
    Pow2Add(24, 2);
    Pow2Add(24, 3);
  }

  /** With 2^27 slots the product wraps, and an epoch is 13% of them. */
  lemma EpochShareFails()
    ensures EpochSizeFor(Pow2(27)) == 17448304 && 45 * Pow2(27) / 100 == 60397977
  {
    EpochPowers();
  }

  // ---------- the cache ----------

  const INVALID: nat := 0xFFFFFFFF

  class Cache {
    const hash: Hasher
    const depthLimit: nat
    const epochSize: nat
    var table: seq<Element>
    var mem: seq<bv8>
    var epochFlags: seq<bool>
    var heuristicCounter: nat

    ghost function View(): seq<Cell>
      reads this
    {
      Cells(table, mem, epochFlags)
    }

    ghost predicate Valid()
      reads this
    {
      && Shaped(table, mem, epochFlags) && depthLimit >= 1
      && Placed(hash, View()) && Paced(View(), heuristicCounter, epochSize)
    }

    /** An empty cache of 2^depthLimit slots. */
    constructor (hash: Hasher, depthLimit: nat)
      requires 1 <= depthLimit <= 31
      ensures Valid() && Kept(View()) == multiset{} && Recent(View()) == 0 && this.depthLimit == depthLimit && this.hash == hash
      ensures |View()| == Pow2(depthLimit) && heuristicCounter == epochSize
      ensures epochSize == EpochSizeFor(|View()|)
      ensures epochSize == Max(1, 45 * |View()| / 100) <==> depthLimit <= 26
    {
      hide BitAt, Locs;
      EpochShareExact(depthLimit);
      var size := Pow2(depthLimit);
      this.hash, this.depthLimit := hash, depthLimit;
      table := seq(size, _ => 0);
      mem := seq((size + 7) / 8, _ => 0xFF);
      epochFlags := seq(size, _ => false);
      epochSize, heuristicCounter := EpochSizeFor(size), EpochSizeFor(size);
      new;
      CellsFresh(table, mem, epochFlags);
    }

    method BitIsSet(n: nat) returns (b: bool)
      requires Shaped(table, mem, epochFlags) && n < |table|
      ensures b <==> !View()[n].kept
    {
      hide Test;
      b := Test(mem[n / 8], n % 8);
    }

    method AllowErase(n: nat)
      requires Shaped(table, mem, epochFlags) && n < |table|
      modifies this`mem
      ensures Shaped(table, mem, epochFlags) && View() == old(View())[n := old(View())[n].(kept := false)]
    {
      hide Cells, Set;
      CellsErase(table, mem, epochFlags, n);
      assert |View()| == |table| by { CellsLength(table, mem, epochFlags); }
      mem := mem[n / 8 := Set(mem[n / 8], n % 8)];
    }

    method PleaseKeep(n: nat)
      requires Shaped(table, mem, epochFlags) && n < |table|
      modifies this`mem
      ensures Shaped(table, mem, epochFlags) && View() == old(View())[n := old(View())[n].(kept := true)]
    {
      hide Cells, Clear;
      CellsKeep(table, mem, epochFlags, n);
      assert |View()| == |table| by { CellsLength(table, mem, epochFlags); }
      mem := mem[n / 8 := Clear(mem[n / 8], n % 8)];
    }

    /** Count down to the next scan, or scan and, if the current epoch is full, age all entries. */
    method CheckEpoch()
      requires Shaped(table, mem, epochFlags)
      modifies this`mem, this`epochFlags, this`heuristicCounter
      ensures Shaped(table, mem, epochFlags)
      ensures Epoch(View(), heuristicCounter) == EpochCheck(old(View()), old(heuristicCounter), epochSize)
    {
      hide Cells, Shaped, Recent, Aged;
      if heuristicCounter != 0 {
        heuristicCounter := heuristicCounter - 1;
        return;
      }
      var epochUnusedCount := CountRecent();
      if epochUnusedCount >= epochSize {
        Age();
        heuristicCounter := epochSize;
      } else {
        heuristicCounter := Max(1, Max(epochSize / 16, epochSize - epochUnusedCount));
      }
    }

    method CountRecent() returns (count: nat)
      requires Shaped(table, mem, epochFlags)
      ensures count == Recent(View())
    {
      hide BitAt;
      count := 0;
      ghost var cells := View();
      for i := 0 to |table|
        invariant count == Recent(cells[..i])
      {
        assert cells[..i + 1][..i] == cells[..i];
        var collected := BitIsSet(i);
        if epochFlags[i] && !collected {
          count := count + 1;
        }
      }
      assert cells[..|table|] == cells;
    }

    method Age()
      requires Shaped(table, mem, epochFlags)
      modifies this`mem, this`epochFlags
      ensures Shaped(table, mem, epochFlags) && View() == Aged(old(View()))
    {
      hide BitAt;
      ghost var cells := View();
      for i := 0 to |table|
        invariant Shaped(table, mem, epochFlags) && |View()| == |cells| == |table|
        invariant forall j :: 0 <= j < i ==> View()[j] == Aged(cells)[j]
        invariant forall j :: i <= j < |cells| ==> View()[j] == cells[j]
      {
        if epochFlags[i] {
          CellsFlag(table, mem, epochFlags, i, false);
          epochFlags := epochFlags[i := false];
        } else {
          AllowErase(i);
        }
      }
    }

    /** The first of the slots that holds `e`, or their number. */
    method FindElement(locs: seq<nat>, e: Element) returns (k: nat)
      requires Shaped(table, mem, epochFlags) && forall j :: 0 <= j < |locs| ==> locs[j] < |table|
      ensures k <= |locs| && (if k < |locs| then FirstAt(View(), locs, e, k) else Nowhere(View(), locs, e))
    {
      hide BitAt;
      k := 0;
      while k < |locs|
        invariant k <= |locs| && forall j :: 0 <= j < k ==> View()[locs[j]].e != e
      {
        if table[locs[k]] == e {
          return;
        }
        k := k + 1;
      }
    }

    /** The first of the slots that may be overwritten, or their number. */
    method FindFree(locs: seq<nat>) returns (k: nat)
      requires Shaped(table, mem, epochFlags) && forall j :: 0 <= j < |locs| ==> locs[j] < |table|
      ensures k <= |locs| && k == FirstFree(View(), locs, 0)
      ensures k < |locs| ==> !View()[locs[k]].kept
    {
      hide Cells;
      CellsLength(table, mem, epochFlags);
      k := 0;
      while k < |locs|
        invariant k <= |locs| && FirstFree(View(), locs, k) == FirstFree(View(), locs, 0)
      {
        var free := BitIsSet(locs[k]);
        if free {
          return;
        }
        k := k + 1;
      }
    }

    method Put(loc: nat, e: Element, epoch: bool)
      requires Shaped(table, mem, epochFlags) && loc < |table|
      modifies this`table, this`mem, this`epochFlags
      ensures Shaped(table, mem, epochFlags) && View() == old(View())[loc := Cell(e, true, epoch)] && |View()| == |old(View())|
    {
      hide Cells, BitAt;
      Shape();
      CellsWrite(table, mem, epochFlags, loc, e, epoch);
      table, epochFlags := table[loc := e], epochFlags[loc := epoch];
      Shape();
      PleaseKeep(loc);
    }

    /** Put `e` in a slot and take what was there in hand. */
    method Exchange(loc: nat, e: Element, epoch: bool) returns (e': Element, epoch': bool)
      requires Shaped(table, mem, epochFlags) && loc < |table|
      modifies this`table, this`epochFlags
      ensures Shaped(table, mem, epochFlags) && View() == old(View())[loc := Cell(e, old(View())[loc].kept, epoch)]
      ensures e' == old(View())[loc].e && epoch' == old(View())[loc].recent && |View()| == |old(View())|
    {
      hide BitAt;
      CellsWrite(table, mem, epochFlags, loc, e, epoch);
      e', epoch' := table[loc], epochFlags[loc];
      table, epochFlags := table[loc := e], epochFlags[loc := epoch];
    }

    /** Insert an element into what the epoch check left. */
    method Insert(e: Element) returns (ghost lost: multiset<Element>)
      requires Valid()
      modifies this`table, this`mem, this`epochFlags, this`heuristicCounter
      ensures Valid() && |View()| == |old(View())| > 0
      ensures var after := EpochCheck(old(View()), old(heuristicCounter), epochSize);
              && heuristicCounter == after.counter && Kept(after.cells) <= old(Kept(View()))
              && |after.cells| > 0 && Inserted(hash, after.cells, e, depthLimit, Outcome(View(), lost))
    {
      hide *;
      KnownValid();
      Shape();
      EpochCheckKeeps(hash, View(), heuristicCounter, epochSize);
      CheckEpoch();
      Shape();
      ghost var cells := View();
      var locs := Locs(hash, |table|, e);
      var k := FindElement(locs, e);
      if k < |locs| {
        FoundInserted(hash, cells, e, depthLimit, k);
        PleaseKeep(locs[k]);
        Shape();
        CellsFlag(table, mem, epochFlags, locs[k], true);
        epochFlags := epochFlags[locs[k] := true];
        Reshape(table, mem, epochFlags);
        Shape();
        assert View() == cells[locs[k] := Cell(e, true, true)];
        lost := multiset{};
      } else {
        MissingInserted(hash, cells, e, depthLimit);
        lost := Displace(e, locs);
      }
      InsertedKeeps(hash, cells, e, depthLimit, Outcome(View(), lost));
      Shape();
      Revalid();
    }

    method Displace(e0: Element, locs0: seq<nat>) returns (ghost lost: multiset<Element>)
      requires Shaped(table, mem, epochFlags) && locs0 == Locs(hash, |table|, e0) && |View()| > 0
      modifies this`table, this`mem, this`epochFlags
      ensures Shaped(table, mem, epochFlags)
      ensures Outcome(View(), lost) == Displaced(hash, old(View()), e0, INVALID, true, depthLimit)
    {
      hide *;
      var e, locs, lastLoc, lastEpoch := e0, locs0, INVALID, true;
      Shape();
      ghost var all := Displaced(hash, View(), e0, INVALID, true, depthLimit);
      for depth := 0 to depthLimit
        invariant Shaped(table, mem, epochFlags) && |table| == |View()| > 0 && locs == Locs(hash, |table|, e)
        invariant Displaced(hash, View(), e, lastLoc, lastEpoch, depthLimit - depth) == all
      {
        DisplacedStep(hash, View(), e, lastLoc, lastEpoch, depthLimit - depth);
        var k := FindFree(locs);
        if k < |locs| {
          Put(locs[k], e, lastEpoch);
          return multiset{};
        }
        var idx := IndexOf(locs, lastLoc);
        lastLoc := locs[(1 + idx) % 8];
        e, lastEpoch := Exchange(lastLoc, e, lastEpoch);
        Shape();
        locs := Locs(hash, |table|, e);
      }
      DisplacedEnd(hash, View(), e, lastLoc, lastEpoch);
      lost := multiset{e};
    }

    method Contains(e: Element, erase: bool) returns (found: bool)
      requires Valid()
      modifies this`mem
      ensures Valid() && |View()| == |old(View())| > 0
      ensures found <==> !Nowhere(old(View()), Locs(hash, |old(View())|, e), e)
      ensures e in old(Kept(View())) ==> found
      ensures !(found && erase) ==> View() == old(View())
      ensures found && erase ==> Erased(hash, old(View()), e, View())
    {
      hide *;
      KnownValid();
      Shape();
      ghost var cells := View();
      var locs := Locs(hash, |table|, e);
      KeptFoundAll(hash, cells, e);
      var k := FindElement(locs, e);
      if k < |locs| {
        EraseKeeps(hash, cells, e, k, heuristicCounter, epochSize);
        if erase {
          AllowErase(locs[k]);
          Shape();
          Revalid();
        }
        return true;
      }
      return false;
    }

    lemma KnownValid()
      requires Valid()
      ensures Shaped(table, mem, epochFlags) && depthLimit >= 1 && Placed(hash, View()) && Paced(View(), heuristicCounter, epochSize)
    {
    }

    lemma Bounded()
      requires Valid()
      ensures Recent(View()) <= EpochBound(epochSize) && |View()| > 0
      ensures forall e :: e in Kept(View()) ==> !Nowhere(View(), Locs(hash, |View()|, e), e)
    {
      hide Locs, Kept, Nowhere, Recent;
      forall e | e in Kept(View())
        ensures !Nowhere(View(), Locs(hash, |View()|, e), e)
      {
        KeptFound(hash, View(), e);
      }
    }

    lemma Shape()
      requires Shaped(table, mem, epochFlags)
      ensures View() == Cells(table, mem, epochFlags) && |View()| == |table| == |epochFlags| > 0
    {
    }

    lemma Revalid()
      requires Shaped(table, mem, epochFlags) && depthLimit >= 1 && Placed(hash, View())
      requires Recent(View()) + heuristicCounter <= EpochBound(epochSize)
      ensures Valid()
    {
    }
  }

  // ---------- runs ----------

  datatype Op = Insert(e: Element) | Contains(e: Element, erase: bool)

  /**
   Any run from setup: what is kept can be found, and the current epoch stays within its bound.
   */
  method Run(hash: Hasher, depthLimit: nat, ops: seq<Op>) returns (cache: Cache)
    requires 1 <= depthLimit <= 31
    ensures cache.Valid() && Recent(cache.View()) <= EpochBound(cache.epochSize) && |cache.View()| > 0
    ensures forall e :: e in Kept(cache.View()) ==> !Nowhere(cache.View(), Locs(hash, |cache.View()|, e), e)
  {
    hide *;
    cache := new Cache(hash, depthLimit);
    for i := 0 to |ops|
      invariant cache.Valid() && cache.hash == hash
    {
      match ops[i]
      case Insert(e) =>
        ghost var _ := cache.Insert(e);
      case Contains(e, erase) =>
        var _ := cache.Contains(e, erase);
    }
    cache.Bounded();
  }

  /** An element that was found and erased is still found until the next insert. */
  method LookAfterErase(cache: Cache, x: Element) returns (r: bool)
    requires cache.Valid()
    modifies cache
    ensures cache.Valid() && r
  {
    hide *;
    ghost var _ := cache.Insert(x);
    ghost var cells := cache.View();
    var found := cache.Contains(x, true);
    if found {
      ErasedStays(cache.hash, cells, x, cache.View());
      r := cache.Contains(x, false);
    } else {
      r := true;
    }
  }

  lemma ErasedStays(hash: Hasher, cells: seq<Cell>, e: Element, cells': seq<Cell>)
    requires |cells| > 0 && Erased(hash, cells, e, cells')
    ensures |cells'| == |cells| && !Nowhere(cells', Locs(hash, |cells'|, e), e)
  {
    hide Locs;
    var locs := Locs(hash, |cells|, e);
    var k: nat :| FirstAt(cells, locs, e, k) && cells' == cells[locs[k] := cells[locs[k]].(kept := false)];
    assert cells'[locs[k]].e == e;
  }

  method IndexOf(locs: seq<nat>, x: nat) returns (k: nat)
    ensures k == IndexIn(locs, x, 0)
  {
    k := 0;
    while k < |locs| && locs[k] != x
      invariant k <= |locs| && IndexIn(locs, x, k) == IndexIn(locs, x, 0)
    {
      k := k + 1;
    }
  }

  lemma Reshape(table: seq<Element>, mem: seq<bv8>, flags: seq<bool>)
    requires exists flags' :: Shaped(table, mem, flags') && |flags'| == |flags|
    ensures Shaped(table, mem, flags)
  {
  }

  // ---------- a chain of displacements ----------

  ghost predicate AnyFree(cells: seq<Cell>, locs: seq<nat>) {
    exists k :: 0 <= k < |locs| && locs[k] < |cells| && !cells[locs[k]].kept
  }

  /** The first slot from `k` on that may be overwritten, or the number of slots. */
  function FirstFree(cells: seq<Cell>, locs: seq<nat>, k: nat): (r: nat)
    ensures r < |locs| ==> locs[r] < |cells| && !cells[locs[r]].kept
    ensures k <= |locs| ==> r <= |locs|
    ensures forall j :: k <= j < r && j < |locs| ==> locs[j] >= |cells| || cells[locs[j]].kept
    decreases |locs| - k
  {
    if k >= |locs| || (locs[k] < |cells| && !cells[locs[k]].kept) then k else FirstFree(cells, locs, k + 1)
  }

  /** Where a slot first occurs among the slots of an element, or their number. */
  function IndexIn(locs: seq<nat>, x: nat, k: nat): nat
    decreases |locs| - k
  {
    if k >= |locs| || locs[k] == x then k else IndexIn(locs, x, k + 1)
  }

  datatype Outcome = Outcome(cells: seq<Cell>, lost: multiset<Element>)

  /** The slot that an element takes from another: the one after the slot it was taken from. */
  function NextSlot(hash: Hasher, size: nat, e: Element, last: nat): (loc: nat)
    requires size > 0
    ensures loc < size && loc in Locs(hash, size, e)
  {
    var locs := Locs(hash, size, e);
    locs[(1 + IndexIn(locs, last, 0)) % 8]
  }

  /** What becomes of a table and an element in hand in at most `depth` rounds. */
  function Displaced(hash: Hasher, cells: seq<Cell>, e: Element, last: nat, epoch: bool, depth: nat): Outcome
    requires |cells| > 0
    decreases depth
  {
    if depth == 0 then Outcome(cells, multiset{e})
    else
      var locs := Locs(hash, |cells|, e);
      var k := FirstFree(cells, locs, 0);
      if k < |locs| then Outcome(cells[locs[k] := Cell(e, true, epoch)], multiset{})
      else
        var loc := NextSlot(hash, |cells|, e, last);
        Displaced(hash, cells[loc := Cell(e, cells[loc].kept, epoch)], cells[loc].e, loc, cells[loc].recent, depth - 1)
  }

  /**
   A chain of displacements conserves what is kept and the element in hand, but for at most one
   element, keeps everything in its own slots, adds at most one element to the epoch, and loses
   nothing if a slot was free.
   */
  lemma {:induction false} DisplacedKeeps(hash: Hasher, cells: seq<Cell>, e: Element, last: nat, epoch: bool, depth: nat)
    requires Placed(hash, cells)
    ensures var o := Displaced(hash, cells, e, last, epoch, depth);
            && Placed(hash, o.cells) && |o.cells| == |cells|
            && Kept(o.cells) + o.lost == Kept(cells) + multiset{e} && |o.lost| <= 1
            && Recent(o.cells) <= Recent(cells) + RecentIn(Cell(e, true, epoch))
            && (depth > 0 && AnyFree(cells, Locs(hash, |cells|, e)) ==> o.lost == multiset{})
    decreases depth
  {
    hide Placed, Kept, Recent, Locs;
    PlacedSize(hash, cells);
    if depth > 0 {
      var locs := Locs(hash, |cells|, e);
      var k := FirstFree(cells, locs, 0);
      if k < |locs| {
        TakeSlot(hash, cells, e, epoch, locs[k]);
      } else {
        var loc := NextSlot(hash, |cells|, e, last);
        var next := cells[loc := Cell(e, cells[loc].kept, epoch)];
        AllKept(hash, cells, e, loc);
        TakeSlot(hash, cells, e, epoch, loc);
        DisplacedKeeps(hash, next, cells[loc].e, loc, cells[loc].recent, depth - 1);
        var o := Displaced(hash, next, cells[loc].e, loc, cells[loc].recent, depth - 1);
        Handed(Kept(o.cells), o.lost, Kept(next), cells[loc].e, Kept(cells), e);
      }
    }
  }

  lemma PlacedSize(hash: Hasher, cells: seq<Cell>)
    requires Placed(hash, cells)
    ensures |cells| > 0
  {
  }

  lemma AllKept(hash: Hasher, cells: seq<Cell>, e: Element, loc: nat)
    requires |cells| > 0 && FirstFree(cells, Locs(hash, |cells|, e), 0) >= |Locs(hash, |cells|, e)|
    requires loc in Locs(hash, |cells|, e)
    ensures loc < |cells| && cells[loc].kept && !AnyFree(cells, Locs(hash, |cells|, e))
  {
    hide FirstFree, Locs;
    var locs := Locs(hash, |cells|, e);
    var k :| 0 <= k < |locs| && locs[k] == loc;
    assert forall j :: 0 <= j < |locs| ==> locs[j] < |cells| && cells[locs[j]].kept;
  }

  lemma TakeSlot(hash: Hasher, cells: seq<Cell>, e: Element, epoch: bool, loc: nat)
    requires Placed(hash, cells) && |cells| > 0 && loc < |cells| && loc in Locs(hash, |cells|, e)
    ensures var c := Cell(e, true, epoch); var next := cells[loc := c];
            && Placed(hash, next) && Kept(next) + KeptIn(cells[loc]) == Kept(cells) + multiset{e}
            && Recent(next) + RecentIn(cells[loc]) == Recent(cells) + RecentIn(c)
  {
    hide Placed, Kept, Recent, Locs;
    SetPlaced(hash, cells, loc, Cell(e, true, epoch));
    SetCell(cells, loc, Cell(e, true, epoch));
  }

  lemma Handed(end: multiset<Element>, lost: multiset<Element>, next: multiset<Element>, taken: Element, start: multiset<Element>, e: Element)
    requires end + lost == next + multiset{taken} && next + multiset{taken} == start + multiset{e}
    ensures end + lost == start + multiset{e}
  {
  }

  /**
   What an insert makes of a table: an element that is in one of its slots is kept there; any other
   starts a chain of displacements.
   */
  ghost predicate Inserted(hash: Hasher, cells: seq<Cell>, e: Element, depth: nat, o: Outcome)
    requires |cells| > 0
  {
    var locs := Locs(hash, |cells|, e);
    if Nowhere(cells, locs, e) then o == Displaced(hash, cells, e, INVALID, true, depth)
    else exists k: nat :: FirstAt(cells, locs, e, k) && o == Outcome(cells[locs[k] := Cell(e, true, true)], multiset{})
  }

  lemma Regained(now: multiset<Element>, here: multiset<Element>, was: multiset<Element>, e: Element)
    requires now + here == was + multiset{e} && (here == multiset{e} || here == multiset{})
    ensures was <= now
  {
    if here == multiset{e} {
      assert now == now + here - multiset{e} == was;
    } else {
      assert now == now + here;
    }
  }

  /** What an insert means: the element is added, at the cost of at most one, and of none if a slot was free. */
  lemma InsertedKeeps(hash: Hasher, cells: seq<Cell>, e: Element, depth: nat, o: Outcome)
    requires Placed(hash, cells) && |cells| > 0 && depth > 0 && Inserted(hash, cells, e, depth, o)
    ensures Placed(hash, o.cells) && |o.cells| == |cells| && Recent(o.cells) <= Recent(cells) + 1 && |o.lost| <= 1
    ensures if Nowhere(cells, Locs(hash, |cells|, e), e)
            then Kept(o.cells) + o.lost == Kept(cells) + multiset{e} && (AnyFree(cells, Locs(hash, |cells|, e)) ==> o.lost == multiset{})
            else o.lost == multiset{} && e in Kept(o.cells) && Kept(cells) <= Kept(o.cells)
  {
    hide Placed, Kept, Recent, Locs, Displaced, Nowhere;
    var locs := Locs(hash, |cells|, e);
    if Nowhere(cells, locs, e) {
      DisplacedKeeps(hash, cells, e, INVALID, true, depth);
    } else {
      var k: nat :| FirstAt(cells, locs, e, k) && o == Outcome(cells[locs[k] := Cell(e, true, true)], multiset{});
      TakeSlot(hash, cells, e, true, locs[k]);
      KeptHere(o.cells, locs[k]);
      Regained(Kept(o.cells), KeptIn(cells[locs[k]]), Kept(cells), e);
    }
  }

  /** The first slot that holds the element becomes discardable, and still holds it. */
  ghost predicate Erased(hash: Hasher, cells: seq<Cell>, e: Element, cells': seq<Cell>)
    requires |cells| > 0
  {
    var locs := Locs(hash, |cells|, e);
    exists k: nat :: FirstAt(cells, locs, e, k) && cells' == cells[locs[k] := cells[locs[k]].(kept := false)]
  }

  // ---------- which slots, and which epochs ----------

  /** An element with a discardable slot takes the first of these and moves nothing. */
  lemma TakesFirstFree(hash: Hasher, cells: seq<Cell>, e: Element, last: nat, epoch: bool, depth: nat, k: nat)
    requires |cells| > 0 && depth > 0 && k < 8
    requires var locs := Locs(hash, |cells|, e);
             !cells[locs[k]].kept && forall j :: 0 <= j < k ==> cells[locs[j]].kept
    ensures Displaced(hash, cells, e, last, epoch, depth) == Outcome(cells[Locs(hash, |cells|, e)[k] := Cell(e, true, epoch)], multiset{})
  {
    hide Locs, NextSlot;
    var locs := Locs(hash, |cells|, e);
    var r := FirstFree(cells, locs, 0);
    assert r <= k;
    assert r == k;
  }

  /** Without one, a chain starts at the second slot: the element takes it, and its occupant goes on. */
  lemma ChainStarts(hash: Hasher, cells: seq<Cell>, e: Element, epoch: bool, depth: nat)
    requires 0 < |cells| <= INVALID && depth > 0 && !AnyFree(cells, Locs(hash, |cells|, e))
    ensures var loc := hash(e, 1) % |cells|;
            Displaced(hash, cells, e, INVALID, epoch, depth) ==
              Displaced(hash, cells[loc := Cell(e, true, epoch)], cells[loc].e, loc, cells[loc].recent, depth - 1)
  {
    var locs := Locs(hash, |cells|, e);
    assert locs[1] == hash(e, 1) % |cells|;
    NoIndex(locs, INVALID, 0);
    NoneFree(cells, locs);
  }

  /** An occupant that was pushed out of its slot `k` takes the next one, of eight in a circle. */
  lemma ChainGoesOn(hash: Hasher, cells: seq<Cell>, e: Element, k: nat, epoch: bool, depth: nat)
    requires |cells| > 0 && depth > 0 && k < 8 && !AnyFree(cells, Locs(hash, |cells|, e))
    requires forall j :: 0 <= j < k ==> Locs(hash, |cells|, e)[j] != Locs(hash, |cells|, e)[k]
    ensures var loc := Locs(hash, |cells|, e)[if k == 7 then 0 else k + 1];
            Displaced(hash, cells, e, Locs(hash, |cells|, e)[k], epoch, depth) ==
              Displaced(hash, cells[loc := Cell(e, true, epoch)], cells[loc].e, loc, cells[loc].recent, depth - 1)
  {
    hide Locs;
    var locs := Locs(hash, |cells|, e);
    FirstIndex(locs, k, 0);
    NoneFree(cells, locs);
  }

  lemma NoneFree(cells: seq<Cell>, locs: seq<nat>)
    requires (forall k :: 0 <= k < |locs| ==> locs[k] < |cells|) && !AnyFree(cells, locs)
    ensures FirstFree(cells, locs, 0) >= |locs| && forall k :: 0 <= k < |locs| ==> cells[locs[k]].kept
  {
    var r := FirstFree(cells, locs, 0);
  }

  lemma {:induction false} NoIndex(locs: seq<nat>, x: nat, k: nat)
    requires k <= |locs| && forall j :: 0 <= j < |locs| ==> locs[j] != x
    ensures IndexIn(locs, x, k) == |locs|
    decreases |locs| - k
  {
    if k < |locs| {
      NoIndex(locs, x, k + 1);
    }
  }

  lemma {:induction false} FirstIndex(locs: seq<nat>, k: nat, from: nat)
    requires from <= k < |locs| && forall j :: 0 <= j < k ==> locs[j] != locs[k]
    ensures IndexIn(locs, locs[k], from) == k
    decreases k - from
  {
    if from < k {
      FirstIndex(locs, k, from + 1);
    }
  }

  function OnlyRecent(c: Cell): Cell { c.(kept := c.kept && c.recent) }

  /** The elements that are kept and belong to the current epoch. */
  ghost function Fresh(cells: seq<Cell>): multiset<Element> {
    Kept(seq(|cells|, i requires 0 <= i < |cells| => OnlyRecent(cells[i])))
  }

  lemma SetFresh(cells: seq<Cell>, i: nat, c: Cell)
    requires i < |cells|
    ensures Fresh(cells[i := c]) + KeptIn(OnlyRecent(cells[i])) == Fresh(cells) + KeptIn(OnlyRecent(c))
  {
    hide Kept;
    var a := seq(|cells|, i requires 0 <= i < |cells| => OnlyRecent(cells[i]));
    var b := cells[i := c];
    assert seq(|b|, i requires 0 <= i < |b| => OnlyRecent(b[i])) == a[i := OnlyRecent(c)];
    SetKept(a, i, OnlyRecent(c));
  }

  /** Elements take their epoch along: a chain conserves the elements of the current epoch but for the one it drops. */
  lemma {:induction false} DisplacedFresh(hash: Hasher, cells: seq<Cell>, e: Element, last: nat, epoch: bool, depth: nat)
    returns (dropped: multiset<Element>)
    requires |cells| > 0
    ensures var o := Displaced(hash, cells, e, last, epoch, depth);
            Fresh(o.cells) + dropped == Fresh(cells) + KeptIn(Cell(e, epoch, epoch)) && dropped <= o.lost
    decreases depth
  {
    hide Fresh, Locs;
    if depth == 0 {
      dropped := KeptIn(Cell(e, epoch, epoch));
    } else {
      var locs := Locs(hash, |cells|, e);
      var k := FirstFree(cells, locs, 0);
      if k < |locs| {
        SetFresh(cells, locs[k], Cell(e, true, epoch));
        dropped := multiset{};
        assert KeptIn(OnlyRecent(cells[locs[k]])) == multiset{};
      } else {
        var loc := NextSlot(hash, |cells|, e, last);
        AllKept(hash, cells, e, loc);
        SetFresh(cells, loc, Cell(e, cells[loc].kept, epoch));
        dropped := DisplacedFresh(hash, cells[loc := Cell(e, cells[loc].kept, epoch)], cells[loc].e, loc, cells[loc].recent, depth - 1);
      }
    }
  }

  /** An inserted element belongs to the current epoch, wherever it was before, unless it is the one that is dropped. */
  lemma InsertedFresh(hash: Hasher, cells: seq<Cell>, e: Element, depth: nat, o: Outcome)
    requires |cells| > 0 && Inserted(hash, cells, e, depth, o)
    ensures e in Fresh(o.cells) || e in o.lost
  {
    hide Fresh, Locs, Displaced;
    if Nowhere(cells, Locs(hash, |cells|, e), e) {
      var dropped := DisplacedFresh(hash, cells, e, INVALID, true, depth);
      assert e in Fresh(cells) + KeptIn(Cell(e, true, true));
    } else {
      var locs := Locs(hash, |cells|, e);
      var k: nat :| FirstAt(cells, locs, e, k) && o == Outcome(cells[locs[k] := Cell(e, true, true)], multiset{});
      FreshHere(o.cells, locs[k]);
    }
  }

  lemma FreshHere(cells: seq<Cell>, i: nat)
    requires i < |cells| && cells[i].kept && cells[i].recent
    ensures cells[i].e in Fresh(cells)
  {
    KeptHere(seq(|cells|, i requires 0 <= i < |cells| => OnlyRecent(cells[i])), i);
  }

  /** Erasing takes one occurrence of the element from what is kept, if the first slot that holds it was kept, and moves nothing. */
  lemma ErasedKept(hash: Hasher, cells: seq<Cell>, e: Element, cells': seq<Cell>)
    requires |cells| > 0 && Erased(hash, cells, e, cells')
    ensures Kept(cells') == Kept(cells) || Kept(cells') + multiset{e} == Kept(cells)
    ensures |cells'| == |cells| && forall i :: 0 <= i < |cells| ==> cells'[i].e == cells[i].e && cells'[i].recent == cells[i].recent
  {
    hide Kept, Locs;
    var locs := Locs(hash, |cells|, e);
    var k: nat :| FirstAt(cells, locs, e, k) && cells' == cells[locs[k] := cells[locs[k]].(kept := false)];
    SetKept(cells, locs[k], cells[locs[k]].(kept := false));
    assert Kept(cells') + multiset{} == Kept(cells');
  }

  lemma DisplacedStep(hash: Hasher, cells: seq<Cell>, e: Element, last: nat, epoch: bool, depth: nat)
    requires |cells| > 0 && depth > 0
    ensures var locs := Locs(hash, |cells|, e);
            var k := FirstFree(cells, locs, 0);
            var loc := locs[(1 + IndexIn(locs, last, 0)) % 8];
            Displaced(hash, cells, e, last, epoch, depth) ==
              if k < |locs| then Outcome(cells[locs[k] := Cell(e, true, epoch)], multiset{})
              else Displaced(hash, cells[loc := Cell(e, cells[loc].kept, epoch)], cells[loc].e, loc, cells[loc].recent, depth - 1)
  {
    hide Locs, FirstFree, IndexIn;
  }

  lemma DisplacedEnd(hash: Hasher, cells: seq<Cell>, e: Element, last: nat, epoch: bool)
    requires |cells| > 0
    ensures Displaced(hash, cells, e, last, epoch, 0) == Outcome(cells, multiset{e})
  {
  }

  lemma EpochCheckKeeps(hash: Hasher, cells: seq<Cell>, counter: nat, epochSize: nat)
    requires Placed(hash, cells) && Paced(cells, counter, epochSize)
    ensures var c := EpochCheck(cells, counter, epochSize);
            && Placed(hash, c.cells) && Kept(c.cells) <= Kept(cells) && |c.cells| == |cells|
            && Recent(c.cells) + 1 + c.counter <= EpochBound(epochSize)
  {
    hide Placed, Kept, Recent;
    AgedPlaced(hash, cells);
    AgedFacts(cells);
    EpochCheckPaced(cells, counter, epochSize);
  }

  lemma FoundInserted(hash: Hasher, cells: seq<Cell>, e: Element, depth: nat, k: nat)
    requires |cells| > 0 && FirstAt(cells, Locs(hash, |cells|, e), e, k)
    ensures var loc := Locs(hash, |cells|, e)[k];
            cells[loc].e == e && Inserted(hash, cells, e, depth, Outcome(cells[loc := Cell(e, true, true)], multiset{}))
  {
    hide Locs, Displaced;
  }

  lemma MissingInserted(hash: Hasher, cells: seq<Cell>, e: Element, depth: nat)
    requires |cells| > 0 && Nowhere(cells, Locs(hash, |cells|, e), e)
    ensures Inserted(hash, cells, e, depth, Displaced(hash, cells, e, INVALID, true, depth))
  {
    hide Locs, Displaced;
  }

  lemma EraseKeeps(hash: Hasher, cells: seq<Cell>, e: Element, k: nat, counter: nat, epochSize: nat)
    requires Placed(hash, cells) && |cells| > 0 && FirstAt(cells, Locs(hash, |cells|, e), e, k) && Paced(cells, counter, epochSize)
    ensures var loc := Locs(hash, |cells|, e)[k];
            var cells' := cells[loc := cells[loc].(kept := false)];
            && cells[loc].e == e && Placed(hash, cells') && Recent(cells') + counter <= EpochBound(epochSize)
            && !Nowhere(cells, Locs(hash, |cells|, e), e) && Erased(hash, cells, e, cells')
  {
    hide Locs, Kept, Recent, Placed;
    var loc := Locs(hash, |cells|, e)[k];
    SetPlaced(hash, cells, loc, cells[loc].(kept := false));
    SetCell(cells, loc, cells[loc].(kept := false));
  }

  lemma KeptFoundAll(hash: Hasher, cells: seq<Cell>, e: Element)
    requires Placed(hash, cells) && |cells| > 0
    ensures e in Kept(cells) ==> !Nowhere(cells, Locs(hash, |cells|, e), e)
  {
    if e in Kept(cells) {
      KeptFound(hash, cells, e);
    }
  }

  lemma CellsLength(table: seq<Element>, mem: seq<bv8>, flags: seq<bool>)
    ensures |Cells(table, mem, flags)| == |table|
  {
  }
}
