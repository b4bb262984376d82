/**
 The block index as a tree of linked nodes with skip pointers, and the active chain as a vector
 of nodes by height.
 */
module Chain {
  import opened Numbers

  // ---------- skip heights ----------

  /** Bitwise and. */
  function And(x: nat, y: nat): nat
    decreases x
  {
    if x == 0 || y == 0 then 0 else (if x % 2 == 1 && y % 2 == 1 then 1 else 0) + 2 * And(x / 2, y / 2)
  }

  lemma {:induction false} AndLe(x: nat, y: nat)
    ensures And(x, y) <= x && And(x, y) <= y
    decreases x
  {
    if x != 0 && y != 0 {
      AndLe(x / 2, y / 2);
    }
  }

  /** The number without its lowest one bit. */
  function InvertLowestOne(n: nat): (r: nat)
    ensures n > 0 ==> r < n
    ensures n == 0 ==> r == 0
  {
    if n == 0 then 0 else AndLe(n, n - 1); And(n, n - 1)
  }

  /** The height that a skip pointer goes to: below the block's own. */
  function GetSkipHeight(height: nat): (r: nat)
    ensures height > 0 ==> r < height
    ensures height == 0 ==> r == 0
  {
    if height < 2 then 0
    else if height % 2 == 1 then InvertLowestOne(InvertLowestOne(height - 1)) + 1
    else InvertLowestOne(height)
  }

  // ---------- how many steps a walk takes ----------

  /** Where a walk towards height `to` goes next, if every block has its skip pointer. */
  function NextHeight(h: nat, to: nat): (r: nat)
    requires to < h
    ensures to <= r < h
  {
    var skip, skipPrev := GetSkipHeight(h), GetSkipHeight(h - 1);
    if skip == to || (skip > to && !(skipPrev < skip - 2 && skipPrev >= to)) then skip else h - 1
  }

  function WalkSteps(h: nat, to: nat): nat
    decreases h
  {
    if h <= to then 0 else 1 + WalkSteps(NextHeight(h, to), to)
  }

  lemma {:induction false} AndSelf(n: nat)
    ensures And(n, n) == n
  {
    if n != 0 {
      AndSelf(n / 2);
    }
  }

  /** Clearing the lowest one: of an odd number the last bit, of an even one that of its half. */
  lemma InvertCases(n: nat)
    ensures n % 2 == 1 ==> InvertLowestOne(n) == n - 1
    ensures n % 2 == 0 ==> InvertLowestOne(n) == 2 * InvertLowestOne(n / 2)
  {
    if n % 2 == 1 {
      AndSelf(n / 2);
      assert (n - 1) / 2 == n / 2;
    } else if n > 0 {
      assert (n - 1) / 2 == n / 2 - 1;
    }
  }

  /** The lowest one of a number is that of its lower part, unless that is zero. */
  lemma {:induction false} InvertLower(q: nat, k: nat, a: nat)
    requires 0 < a < Pow2(k)
    ensures InvertLowestOne(q * Pow2(k) + a) == q * Pow2(k) + InvertLowestOne(a)
    decreases k
  {
    hide InvertLowestOne;
    var b, m, r := q * Pow2(k - 1), a / 2, a % 2;
    DoubleBlock(q, k);
    DivMod(a, 2);
    InvertDouble(b + m);
    InvertDouble(m);
    if r == 0 {
      InvertLower(q, k - 1, m);
    }
  }

  lemma DoubleBlock(q: nat, k: nat)
    requires k > 0
    ensures q * Pow2(k) == 2 * (q * Pow2(k - 1))
  {
  }

  lemma InvertDouble(m: nat)
    ensures InvertLowestOne(2 * m + 1) == 2 * m && InvertLowestOne(2 * m) == 2 * InvertLowestOne(m)
  {
    hide InvertLowestOne;
    DivUnique(2 * m + 1, m, 2, 1);
    DivUnique(2 * m, m, 2, 0);
    InvertCases(2 * m + 1);
    InvertCases(2 * m);
  }

  function Ones(n: nat): nat { if n == 0 then 0 else n % 2 + Ones(n / 2) }

  lemma {:induction false} InvertOnes(n: nat)
    requires n > 0
    ensures Ones(InvertLowestOne(n)) + 1 == Ones(n)
  {
    hide InvertLowestOne;
    InvertCases(n);
    if n % 2 == 0 {
      InvertOnes(n / 2);
    }
  }

  lemma {:induction false} OnesBound(n: nat, k: nat)
    requires n < Pow2(k)
    ensures Ones(n) <= k
    decreases k
  {
    if n > 0 {
      OnesBound(n / 2, k - 1);
    }
  }

  /** How far the lower bits of a height are from zero, in steps: one for the last bit, two for the next, four for each other. */
  function Spread(a: nat): nat { a % 2 + HalfSpread(a / 2) }

  function HalfSpread(x: nat): nat { 2 * (x % 2) + 4 * Ones(x / 2) }

  lemma SpreadBound(a: nat, k: nat)
    requires a < Pow2(k)
    ensures Spread(a) <= 4 * k
  {
    hide HalfSpread;
    OnesBound(a, k);
    HalfSpreadBound(a / 2);
  }

  lemma HalfSpreadBound(x: nat)
    ensures HalfSpread(x) <= 4 * Ones(x)
  {
  }

  lemma HalfSpreadIs(m: nat, b: nat)
    requires b < 2
    ensures HalfSpread(2 * m + b) == 2 * b + 4 * Ones(m)
  {
    hide Ones;
    DivUnique(2 * m + b, m, 2, b);
  }

  lemma SpreadIs(m: nat, r: nat)
    requires r < 4
    ensures Spread(4 * m + r) == 4 * Ones(m) + r
  {
    hide Ones, HalfSpread;
    var b := if r < 2 then 0 else 1;
    HalfSpreadIs(m, b);
    DivUnique(4 * m + r, 2 * m + b, 2, r - 2 * b);
  }

  /** An even number is four times another, or two more than that. */
  lemma Quarters(e: nat) returns (m: nat)
    requires e % 2 == 0
    ensures e == 4 * m || e == 4 * m + 2
  {
    m := e / 4;
    DivMod(e, 2);
    DivMod(e / 2, 2);
    DivDiv(e, 2, 2);
  }

  lemma InvertEven(e: nat)
    requires e > 0 && e % 2 == 0
    ensures InvertLowestOne(e) % 2 == 0 && InvertLowestOne(e) <= e - 2
  {
    hide InvertLowestOne;
    DivMod(e, 2);
    InvertDouble(e / 2);
    DivUnique(2 * InvertLowestOne(e / 2), InvertLowestOne(e / 2), 2, 0);
  }

  lemma SpreadInvert(a: nat)
    requires a > 0 && a % 2 == 0
    ensures Spread(InvertLowestOne(a)) < Spread(a)
  {
    hide InvertLowestOne, Spread;
    var m := Quarters(a);
    InvertDouble(m);
    SpreadIs(m, 0);
    if a == 4 * m {
      InvertDouble(2 * m);
      InvertOnes(m);
      SpreadIs(InvertLowestOne(m), 0);
    } else {
      InvertDouble(2 * m + 1);
      SpreadIs(m, 2);
    }
  }

  lemma SpreadOdd(e: nat)
    requires e % 2 == 0
    ensures Spread(e + 1) == Spread(e) + 1
  {
    hide Spread;
    var m := Quarters(e);
    SpreadIs(m, 0);
    SpreadIs(m, 1);
    SpreadIs(m, 2);
    SpreadIs(m, 3);
  }

  /** Stepping down from an even number that is no multiple of eight. */
  lemma SpreadDown(a: nat)
    requires a % 2 == 0 && a % 8 != 0
    ensures Spread(a - 1) < Spread(a)
  {
    hide Spread, Ones;
    var m := Quarters(a);
    SpreadIs(m, 0);
    if a == 4 * m {
      NoEight(m);
      SpreadIs(m - 1, 3);
      OnesOdd(m);
    } else {
      SpreadIs(m, 1);
      SpreadIs(m, 2);
    }
  }

  lemma NoEight(m: nat)
    requires 4 * m % 8 != 0
    ensures m % 2 == 1
  {
    DivMod(m, 2);
    DivUnique(4 * m, m / 2, 8, 4 * (m % 2));
  }

  lemma OnesOdd(m: nat)
    requires m % 2 == 1
    ensures Ones(m - 1) + 1 == Ones(m)
  {
    InvertCases(m);
    InvertOnes(m);
  }

  /** Clearing two ones of `b + e`, where `b` is a multiple of 2^k and `e` even and below 2^k. */
  lemma InvertTwice(q: nat, k: nat, e: nat)
    requires k > 0 && q > 0 && e % 2 == 0 && e < Pow2(k)
    ensures var b := q * Pow2(k);
            var r := InvertLowestOne(InvertLowestOne(b + e));
            if e == 0 || InvertLowestOne(e) == 0 then r + 2 <= b else r == b + InvertLowestOne(InvertLowestOne(e))
  {
    hide InvertLowestOne, Pow2;
    var b := q * Pow2(k);
    EvenBlock(q, k, e);
    InvertEven(b);
    if e != 0 {
      InvertEven(e);
      InvertLower(q, k, e);
      if InvertLowestOne(e) != 0 {
        InvertLower(q, k, InvertLowestOne(e));
      }
    } else if InvertLowestOne(b) > 0 {
      InvertEven(InvertLowestOne(b));
    }
  }

  lemma EvenBlock(q: nat, k: nat, e: nat)
    requires k > 0 && q > 0 && e % 2 == 0
    ensures q * Pow2(k) > 0 && q * Pow2(k) % 2 == 0 && (q * Pow2(k) + e) % 2 == 0
  {
    DoubleBlock(q, k);
    var b := q * Pow2(k - 1);
    DivMod(e, 2);
    DivUnique(2 * b, b, 2, 0);
    DivUnique(2 * b + e, b + e / 2, 2, 0);
  }

  /** The skip height of an odd height in a block, as far as it stays in the block. */
  lemma SkipOdd(q: nat, k: nat, e: nat)
    requires k > 0 && q > 0 && e % 2 == 0 && e + 1 < Pow2(k)
    ensures var b := q * Pow2(k);
            var r := GetSkipHeight(b + e + 1);
            r < b || (e > 0 && InvertLowestOne(e) > 0 && r == b + InvertLowestOne(InvertLowestOne(e)) + 1)
  {
    hide InvertLowestOne, GetSkipHeight, Pow2;
    EvenBlock(q, k, e);
    OddSkip(q * Pow2(k) + e);
    InvertTwice(q, k, e);
  }

  /** A step that does not leave the block above the target makes the spread smaller. */
  lemma StepInBlock(q: nat, k: nat, a: nat, to: nat)
    requires k > 0 && q > 0 && 0 < a < Pow2(k) && to < q * Pow2(k)
    ensures var b := q * Pow2(k);
            var r := NextHeight(b + a, to);
            r >= b ==> Spread(r - b) < Spread(a)
  {
    hide InvertLowestOne, Spread, GetSkipHeight;
    if a % 2 == 1 {
      OddStep(q, k, a - 1, to);
    } else {
      EvenStep(q, k, a, to);
    }
  }

  lemma OddStep(q: nat, k: nat, e: nat, to: nat)
    requires k > 0 && q > 0 && e % 2 == 0 && e + 1 < Pow2(k) && to < q * Pow2(k)
    ensures var b := q * Pow2(k);
            var r := NextHeight(b + e + 1, to);
            r >= b ==> Spread(r - b) < Spread(e + 1)
  {
    hide InvertLowestOne, Spread, GetSkipHeight;
    var b := q * Pow2(k);
    SkipOdd(q, k, e);
    SpreadOdd(e);
    if e > 0 {
      var c := InvertLowestOne(e);
      InvertEven(e);
      SpreadInvert(e);
      if c > 0 {
        InvertEven(c);
        SpreadInvert(c);
        SpreadOdd(InvertLowestOne(c));
      }
    }
  }

  lemma EvenStep(q: nat, k: nat, a: nat, to: nat)
    requires k > 0 && q > 0 && a % 2 == 0 && 0 < a < Pow2(k) && to < q * Pow2(k)
    ensures var b := q * Pow2(k);
            var r := NextHeight(b + a, to);
            r >= b ==> Spread(r - b) < Spread(a)
  {
    hide InvertLowestOne, Spread, GetSkipHeight, Pow2;
    SkipEven(q, k, a);
    SpreadInvert(a);
    if a % 8 != 0 {
      SpreadDown(a);
    }
  }

  /** The skip height of an even height in a block; before a multiple of eight the one of its predecessor is no lower. */
  lemma SkipEven(q: nat, k: nat, a: nat)
    requires k > 0 && q > 0 && a % 2 == 0 && 0 < a < Pow2(k)
    ensures var b := q * Pow2(k);
            && GetSkipHeight(b + a) == b + InvertLowestOne(a)
            && (a % 8 == 0 ==> GetSkipHeight(b + a - 1) > b + InvertLowestOne(a))
  {
    hide InvertLowestOne, GetSkipHeight, Pow2;
    EvenBlock(q, k, a);
    InvertLower(q, k, a);
    EvenSkip(q * Pow2(k) + a);
    if a % 8 == 0 {
      DivMod(a, 8);
      SkipBeforeEight(q, k, a / 8);
    }
  }

  lemma SkipBeforeEight(q: nat, k: nat, m: nat)
    requires k > 0 && q > 0 && m > 0 && 8 * m < Pow2(k)
    ensures GetSkipHeight(q * Pow2(k) + 8 * m - 1) > q * Pow2(k) + InvertLowestOne(8 * m)
  {
    hide InvertLowestOne, GetSkipHeight, Pow2;
    var e := 8 * m - 2;
    DivUnique(e, 4 * m - 1, 2, 0);
    EvenBlock(q, k, e);
    BelowEight(m);
    InvertTwice(q, k, e);
    OddSkip(q * Pow2(k) + e);
  }

  lemma BelowEight(m: nat)
    requires m > 0
    ensures InvertLowestOne(8 * m - 2) == 8 * m - 4 && InvertLowestOne(8 * m - 4) == 8 * m - 8
    ensures InvertLowestOne(8 * m) <= 8 * m - 8
  {
    hide InvertLowestOne;
    InvertDouble(m - 1);
    InvertDouble(2 * m - 1);
    InvertDouble(4 * m - 1);
    InvertDouble(4 * m - 2);
    InvertDouble(m);
    InvertDouble(2 * m);
    InvertDouble(4 * m);
  }

  lemma OddSkip(e: nat)
    requires e > 0 && e % 2 == 0
    ensures GetSkipHeight(e + 1) == InvertLowestOne(InvertLowestOne(e)) + 1
  {
    hide InvertLowestOne;
    DivMod(e, 2);
    DivUnique(e + 1, e / 2, 2, 1);
  }

  lemma EvenSkip(e: nat)
    requires e % 2 == 0
    ensures GetSkipHeight(e) == InvertLowestOne(e)
  {
    hide InvertLowestOne;
    DivMod(e, 2);
  }

  /** Within a block of 2^k heights a walk takes at most 2 k^2 steps. */
  lemma {:induction false} WalkInBlock(h: nat, to: nat, k: nat)
    requires to <= h && h / Pow2(k) == to / Pow2(k)
    ensures WalkSteps(h, to) <= 2 * k * k
    decreases k, 0, h
  {
    if k > 0 {
      var d := Pow2(k - 1);
      Halves(h, k);
      Halves(to, k);
      if h / d == to / d {
        WalkInBlock(h, to, k - 1);
        Squares(k);
      } else {
        DivMono(to, h, d);
        WalkAcross(h, to, k - 1);
        SpreadBound(h % d, k - 1);
        Squares(k);
      }
    }
  }

  /** From the next block of 2^k heights: clear the lower bits, then go on inside. */
  lemma {:induction false} WalkAcross(h: nat, to: nat, k: nat)
    requires h / Pow2(k) == to / Pow2(k) + 1
    ensures WalkSteps(h, to) <= Spread(h % Pow2(k)) + 1 + 2 * k * k
    decreases k, 1, h
  {
    hide Spread, NextHeight;
    var d, q := Pow2(k), h / Pow2(k);
    DivMod(h, d);
    DivMod(to, d);
    MulAdd(q - 1, 1, d);
    var a, r := h % d, NextHeight(h, to);
    if a > 0 {
      StepInBlock(q, k, a, to);
    }
    if r >= q * d {
      DivUnique(r, q, d, r - q * d);
      WalkAcross(r, to, k);
    } else {
      DivUnique(r, q - 1, d, r - (q - 1) * d);
      WalkInBlock(r, to, k);
    }
  }

  lemma Halves(x: nat, k: nat)
    requires k > 0
    ensures x / Pow2(k) == x / Pow2(k - 1) / 2
  {
    DivDiv(x, Pow2(k - 1), 2);
  }

  lemma Squares(k: nat)
    requires k > 0
    ensures 4 * (k - 1) + 1 + 2 * (k - 1) * (k - 1) <= 2 * k * k
  {
  }

  /** A walk down from a height below 2^n takes at most 2 n^2 steps, wherever it goes. */
  lemma WalkBound(h: nat, to: nat, n: nat)
    requires to <= h < Pow2(n)
    ensures WalkSteps(h, to) <= 2 * n * n
  {
    DivUnique(h, 0, Pow2(n), h);
    DivUnique(to, 0, Pow2(n), to);
    WalkInBlock(h, to, n);
  }

  // ---------- the tree ----------

  class BlockIndex {
    const nHeight: nat
    const pprev: BlockIndex?
    var pskip: BlockIndex?

    constructor (pprev: BlockIndex?)
      ensures this.pprev == pprev && pskip == null
      ensures nHeight == if pprev == null then 0 else pprev.nHeight + 1
    {
      this.pprev, pskip := pprev, null;
      nHeight := if pprev == null then 0 else pprev.nHeight + 1;
    }

    /** The ancestor at a height, found by following skip pointers where they do not go too far. */
    method GetAncestor(height: int, ghost tree: set<BlockIndex>) returns (r: BlockIndex?, ghost steps: nat)
      requires TreeOk(tree) && this in tree
      ensures r == null <==> height > nHeight || height < 0
      ensures r != null ==> Linked(this) && r == Ancestor(this, height) && r in tree && r.nHeight == height
      ensures r != null && Skipping(tree) ==> steps == WalkSteps(nHeight, height)
    {
      hide Linked, Ancestor, GetSkipHeight, TreeOk;
      steps := 0;
      if height > nHeight || height < 0 {
        return null, 0;
      }
      InTree(tree, this);
      var pindexWalk: BlockIndex := this;
      var heightWalk := nHeight;
      while heightWalk > height
        invariant height <= heightWalk == pindexWalk.nHeight && pindexWalk in tree && Linked(pindexWalk)
        invariant Ancestor(pindexWalk, height) == Ancestor(this, height)
        invariant Skipping(tree) ==> steps + WalkSteps(heightWalk, height) == WalkSteps(nHeight, height)
        decreases heightWalk
      {
        var heightSkip := GetSkipHeight(heightWalk);
        var heightSkipPrev := GetSkipHeight(heightWalk - 1);
        Parent(pindexWalk);
        AtTree(tree, pindexWalk);
        if pindexWalk.pskip != null
           && (heightSkip == height
               || (heightSkip > height && !(heightSkipPrev < heightSkip - 2 && heightSkipPrev >= height))) {
          AncestorThrough(pindexWalk, heightSkip, height);
          Inside(tree, pindexWalk, heightSkip);
          pindexWalk := pindexWalk.pskip;
          heightWalk := heightSkip;
        } else {
          assert pindexWalk.pprev != null;
          AncestorStep(pindexWalk, height);
          pindexWalk := pindexWalk.pprev;
          heightWalk := heightWalk - 1;
        }
        steps := steps + 1;
      }
      AncestorSelf(pindexWalk);
      Inside(tree, this, height);
      return pindexWalk, steps;
    }

    /** Set the skip pointer of a block whose parent is in the tree. */
    method BuildSkip(ghost tree: set<BlockIndex>)
      requires TreeOk(tree) && this !in tree && pskip == null && Linked(this) && (pprev == null || pprev in tree)
      modifies this`pskip
      ensures TreeOk(tree + {this})
      ensures pprev != null ==> nHeight > 0 && pskip == Ancestor(this, GetSkipHeight(nHeight))
      ensures old(Skipping(tree)) ==> Skipping(tree + {this})
    {
      hide Ancestor, GetSkipHeight, Linked;
      Parent(this);
      if pprev != null {
        AncestorStep(this, GetSkipHeight(nHeight));
        ghost var steps: nat;
        pskip, steps := pprev.GetAncestor(GetSkipHeight(nHeight), tree);
      }
      TreeGrows(tree, this);
    }
  }

  /** Heights count down along the parents to a block without one. */
  ghost predicate Linked(b: BlockIndex)
    decreases b.nHeight
  {
    if b.nHeight == 0 then b.pprev == null else b.pprev != null && b.pprev.nHeight == b.nHeight - 1 && Linked(b.pprev)
  }

  /** Following parents down to a height. */
  ghost function Ancestor(b: BlockIndex, h: nat): (r: BlockIndex)
    requires Linked(b) && h <= b.nHeight
    ensures r.nHeight == h && Linked(r)
    decreases b.nHeight
  {
    if h == b.nHeight then b else Ancestor(b.pprev, h)
  }

  ghost predicate SkipOk(b: BlockIndex)
    requires Linked(b)
    reads b
  {
    b.pskip == null || (b.nHeight > 0 && b.pskip == Ancestor(b, GetSkipHeight(b.nHeight)))
  }

  /** A set of blocks closed under parents, whose skip pointers go to their skip heights. */
  ghost predicate TreeOk(tree: set<BlockIndex>)
    reads tree
  {
    forall b :: b in tree ==> Linked(b) && (b.pprev != null ==> b.pprev in tree) && SkipOk(b)
  }

  /** Every block but a first one has its skip pointer. */
  ghost predicate Skipping(tree: set<BlockIndex>)
    reads tree
  {
    forall b :: b in tree && b.nHeight > 0 ==> b.pskip != null
  }

  lemma InTree(tree: set<BlockIndex>, b: BlockIndex)
    requires TreeOk(tree) && b in tree
    ensures Linked(b)
  {
  }

  lemma AtTree(tree: set<BlockIndex>, b: BlockIndex)
    requires TreeOk(tree) && b in tree && b.nHeight > 0
    ensures Linked(b) && b.pprev != null && b.pprev in tree
    ensures b.pskip != null ==> b.pskip == Ancestor(b, GetSkipHeight(b.nHeight))
  {
  }

  lemma Parent(b: BlockIndex)
    requires Linked(b)
    ensures b.nHeight > 0 ==> b.pprev != null && b.pprev.nHeight == b.nHeight - 1 && Linked(b.pprev)
    ensures b.pprev != null ==> b.nHeight > 0
  {
  }

  lemma AncestorSelf(b: BlockIndex)
    requires Linked(b)
    ensures Ancestor(b, b.nHeight) == b
  {
  }

  lemma AncestorStep(b: BlockIndex, h: nat)
    requires Linked(b) && h < b.nHeight
    ensures b.pprev != null && Linked(b.pprev) && h <= b.pprev.nHeight && Ancestor(b, h) == Ancestor(b.pprev, h)
  {
  }

  /** The ancestor of an ancestor. */
  lemma {:induction false} AncestorThrough(b: BlockIndex, m: nat, h: nat)
    requires Linked(b) && h <= m <= b.nHeight
    ensures Ancestor(Ancestor(b, m), h) == Ancestor(b, h)
    decreases b.nHeight
  {
    if m < b.nHeight {
      AncestorThrough(b.pprev, m, h);
    }
  }

  lemma {:induction false} Inside(tree: set<BlockIndex>, b: BlockIndex, h: nat)
    requires TreeOk(tree) && b in tree && Linked(b) && h <= b.nHeight
    ensures Ancestor(b, h) in tree
    decreases b.nHeight
  {
    if h < b.nHeight {
      Inside(tree, b.pprev, h);
    }
  }

  lemma TreeGrows(tree: set<BlockIndex>, b: BlockIndex)
    requires TreeOk(tree) && Linked(b) && (b.pprev == null || b.pprev in tree) && SkipOk(b)
    ensures TreeOk(tree + {b})
  {
  }

  // ---------- the active chain ----------

  /** The ancestors of a block, by height. */
  ghost function Path(b: BlockIndex): seq<BlockIndex?>
    requires Linked(b)
  {
    seq(b.nHeight + 1, i requires 0 <= i <= b.nHeight => Ancestor(b, i))
  }

  /** `c` is `b` or one of its ancestors. */
  ghost predicate IsAncestor(c: BlockIndex, b: BlockIndex)
    requires Linked(b)
  {
    c.nHeight <= b.nHeight && Ancestor(b, c.nHeight) == c
  }

  class ActiveChain {
    var vChain: seq<BlockIndex?>

    /** Empty, or exactly the ancestors of a tip. */
    ghost predicate Valid()
      reads this
    {
      vChain != [] ==> var tip := vChain[|vChain| - 1]; tip != null && Linked(tip) && vChain == Path(tip)
    }

    constructor ()
      ensures Valid() && vChain == []
    {
      vChain := [];
    }

    function At(nHeight: int): BlockIndex?
      reads this
    {
      if nHeight < 0 || nHeight >= |vChain| then null else vChain[nHeight]
    }

    function Height(): int
      reads this
    {
      |vChain| - 1
    }

    predicate Contains(b: BlockIndex)
      reads this
    {
      At(b.nHeight) == b
    }

    /** Make a block the tip, rewriting entries only down to the last block in common with the old chain. */
    method SetTip(tip: BlockIndex?)
      requires Valid() && (tip != null ==> Linked(tip))
      modifies this
      ensures Valid() && vChain == if tip == null then [] else Path(tip)
    {
      hide Linked, Ancestor;
      if tip == null {
        vChain := [];
        return;
      }
      ghost var was := vChain;
      var n := tip.nHeight + 1;
      vChain := if n <= |vChain| then vChain[..n] else vChain + seq(n - |vChain|, _ => null);
      var pindex: BlockIndex? := tip;
      AncestorSelf(tip);
      while pindex != null && vChain[pindex.nHeight] != pindex
        invariant |vChain| == n
        invariant pindex != null ==> Linked(pindex) && pindex.nHeight < n && pindex == Ancestor(tip, pindex.nHeight)
        invariant forall i :: 0 <= i < n && (pindex == null || i > pindex.nHeight) ==> vChain[i] == Ancestor(tip, i)
        invariant pindex != null ==> forall i :: 0 <= i <= pindex.nHeight ==> vChain[i] == if i < |was| then was[i] else null
        decreases if pindex == null then 0 else pindex.nHeight + 1
      {
        vChain := vChain[pindex.nHeight := pindex];
        Parent(pindex);
        if pindex.nHeight > 0 {
          AncestorStep(pindex, pindex.nHeight - 1);
          AncestorSelf(pindex.pprev);
          AncestorThrough(tip, pindex.nHeight, pindex.nHeight - 1);
        }
        pindex := pindex.pprev;
      }
      if pindex != null {
        SharedBelow(was, tip, pindex);
      }
      assert vChain == Path(tip);
    }

    /** The ancestors of a block, or of the tip, at the locator heights. */
    method GetLocator(b: BlockIndex?, ghost tree: set<BlockIndex>) returns (vHave: seq<BlockIndex>)
      requires Valid() && TreeOk(tree) && (b != null ==> b in tree) && (vChain != [] ==> vChain[|vChain| - 1] in tree)
      ensures var from := if b != null then b else At(Height());
              if from == null then vHave == [] else Linked(from) && AtHeights(vHave, from, LocatorHeights(from.nHeight, 1, 0))
    {
      hide Linked, Ancestor, TreeOk, LocatorHeights, AtHeights, IsAncestor, Path;
      var nStep := 1;
      vHave := [];
      var pindex: BlockIndex? := b;
      if pindex == null {
        pindex := At(Height());
      }
      if pindex == null {
        return;
      }
      ghost var from := pindex;
      ghost var all, heights: seq<nat> := LocatorHeights(from.nHeight, 1, 0), [];
      InTree(tree, from);
      IsSelf(from);
      assert heights + all == all;
      while true
        invariant pindex != null && pindex in tree && Linked(pindex) && nStep > 0
        invariant Linked(from) && IsAncestor(pindex, from) && AtHeights(vHave, from, heights)
        invariant heights + LocatorHeights(pindex.nHeight, nStep, |vHave|) == all
        decreases pindex.nHeight
      {
        LocatorNext(heights, pindex.nHeight, nStep, |vHave|, all);
        AtHeightsNext(vHave, from, heights, pindex);
        heights := heights + [pindex.nHeight];
        vHave := vHave + [pindex];
        if pindex.nHeight == 0 {
          break;
        }
        var nHeight := if pindex.nHeight - nStep > 0 then pindex.nHeight - nStep else 0;
        var next: BlockIndex?;
        Inside(tree, pindex, nHeight);
        AncestorOf(from, pindex, nHeight);
        if Contains(pindex) {
          next := At(nHeight);
          Within(vChain, pindex, nHeight);
        } else {
          ghost var steps: nat;
          next, steps := pindex.GetAncestor(nHeight, tree);
        }
        pindex := next;
        if |vHave| > 10 {
          nStep := nStep * 2;
        }
      }
    }

    /** The last block in common with the branch of a block, or null if there is none. */
    method FindFork(b: BlockIndex?, ghost tree: set<BlockIndex>) returns (r: BlockIndex?)
      requires Valid() && TreeOk(tree) && (b != null ==> b in tree)
      ensures b == null ==> r == null
      ensures r != null ==> b != null && Linked(b) && Contains(r) && IsAncestor(r, b)
      ensures b != null ==> Linked(b) && forall c: BlockIndex :: Contains(c) && IsAncestor(c, b) ==> r != null && c.nHeight <= r.nHeight
    {
      hide Linked, Ancestor;
      if b == null {
        return null;
      }
      InTree(tree, b);
      AncestorSelf(b);
      r := b;
      if r.nHeight > Height() {
        ghost var steps: nat;
        r, steps := r.GetAncestor(Height(), tree);
      }
      while r != null && !Contains(r)
        invariant r != null ==> r in tree && Linked(r) && IsAncestor(r, b)
        invariant forall c: BlockIndex :: Contains(c) && IsAncestor(c, b) ==> r != null && c.nHeight <= r.nHeight
        decreases if r == null then 0 else r.nHeight + 1
      {
        forall c: BlockIndex | Contains(c) && IsAncestor(c, b)
          ensures r.pprev != null && c.nHeight <= r.pprev.nHeight
        {
          Below(c, r, b);
        }
        Parent(r);
        if r.nHeight > 0 {
          AtTree(tree, r);
          AncestorStep(r, r.nHeight - 1);
          AncestorSelf(r.pprev);
          AncestorThrough(b, r.nHeight, r.nHeight - 1);
        }
        r := r.pprev;
      }
    }
  }

  lemma Within(chain: seq<BlockIndex?>, b: BlockIndex, h: nat)
    requires chain != [] && chain[|chain| - 1] != null && Linked(chain[|chain| - 1]) && chain == Path(chain[|chain| - 1])
    requires Linked(b) && h <= b.nHeight < |chain| && chain[b.nHeight] == b
    ensures chain[h] == Ancestor(b, h)
  {
    hide Ancestor;
    AncestorThrough(chain[|chain| - 1], b.nHeight, h);
  }

  function Back(h: nat, step: nat): nat { if h > step then h - step else 0 }

  function NextStep(step: nat, count: nat): nat { if count > 10 then 2 * step else step }

  /** The heights of a locator that goes on from `h` with `count` blocks listed before: down to zero, in steps that double after ten. */
  function LocatorHeights(h: nat, step: nat, count: nat): seq<nat>
    requires step > 0
    decreases h
  {
    if h == 0 then [0] else [h] + LocatorHeights(Back(h, step), NextStep(step, count + 1), count + 1)
  }

  lemma {:induction false} DoublingSteps(h: nat, step: nat, count: nat, k: nat)
    requires step > 0 && count >= 10 && h < Pow2(k) * step
    ensures |LocatorHeights(h, step, count)| <= k + 2
    decreases k
  {
    assert k == 0 ==> Pow2(k) * step == step;
    if h > 0 && k > 0 {
      MulAssoc(Pow2(k - 1), 2, step);
      MulComm(Pow2(k - 1), 2);
      DoublingSteps(Back(h, step), 2 * step, count + 1, k - 1);
    }
  }

  lemma {:induction false} FirstSteps(h: nat, count: nat, k: nat)
    requires count <= 10 && h < Pow2(k)
    ensures |LocatorHeights(h, 1, count)| <= 10 - count + k + 2
    decreases 10 - count
  {
    if count == 10 {
      DoublingSteps(h, 1, count, k);
    } else if h > 0 {
      FirstSteps(Back(h, 1), count + 1, k);
    }
  }

  /** A locator for a block below height 2^k lists at most k + 12 blocks. */
  lemma LocatorShort(h: nat, k: nat)
    requires h < Pow2(k)
    ensures |LocatorHeights(h, 1, 0)| <= k + 12
  {
    FirstSteps(h, 0, k);
  }

  /** How far below the first block entry `i` of a locator lies: eleven single steps, then 2, 4, 8 and so on. */
  function Offset(i: nat): nat { if i <= 11 then i else 9 + Pow2(i - 10) }

  lemma OffsetStep(i: nat)
    ensures Offset(i + 1) == Offset(i) + (if i <= 10 then 1 else Pow2(i - 10)) && Offset(i) >= i
    decreases i
  {
    if i > 11 {
      OffsetStep(i - 1);
    }
  }

  /** The heights of a locator in closed form: by these offsets down to the first that reaches height zero. */
  lemma LocatorExact(h: nat)
    ensures var l := LocatorHeights(h, 1, 0);
            && l != [] && l[|l| - 1] == 0 && h <= Offset(|l| - 1)
            && (forall i :: 0 <= i < |l| - 1 ==> l[i] + Offset(i) == h && l[i] > 0)
  {
    LocatorFrom(h, h, 0);
  }

  lemma {:induction false} LocatorFrom(h: nat, at: nat, i: nat)
    requires at == Back(h, Offset(i))
    ensures var l := LocatorHeights(at, if i <= 10 then 1 else Pow2(i - 10), i);
            && l != [] && l[|l| - 1] == 0 && h <= Offset(i + |l| - 1)
            && (forall j :: 0 <= j < |l| - 1 ==> l[j] + Offset(i + j) == h && l[j] > 0)
    decreases at
  {
    hide Offset;
    OffsetStep(i);
    if at > 0 {
      var step := if i <= 10 then 1 else Pow2(i - 10);
      LocatorFrom(h, Back(at, step), i + 1);
      var l, rest := LocatorHeights(at, step, i), LocatorHeights(Back(at, step), NextStep(step, i + 1), i + 1);
      assert l == [at] + rest;
      forall j | 0 <= j < |l| - 1
        ensures l[j] + Offset(i + j) == h && l[j] > 0
      {
        if j > 0 {
          assert rest[j - 1] + Offset(i + 1 + (j - 1)) == h;
        }
      }
    }
  }

  /** The ancestors of a block at given heights. */
  ghost predicate AtHeights(have: seq<BlockIndex>, b: BlockIndex, heights: seq<nat>)
    requires Linked(b)
  {
    |have| == |heights| && forall i :: 0 <= i < |have| ==> have[i].nHeight == heights[i] && IsAncestor(have[i], b)
  }

  lemma LocatorNext(listed: seq<nat>, h: nat, step: nat, count: nat, all: seq<nat>)
    requires step > 0 && listed + LocatorHeights(h, step, count) == all
    ensures h == 0 ==> listed + [h] == all
    ensures h > 0 ==> (listed + [h]) + LocatorHeights(Back(h, step), NextStep(step, count + 1), count + 1) == all
  {
    if h > 0 {
      var rest := LocatorHeights(Back(h, step), NextStep(step, count + 1), count + 1);
      assert listed + ([h] + rest) == (listed + [h]) + rest;
    }
  }

  lemma AtHeightsNext(have: seq<BlockIndex>, b: BlockIndex, heights: seq<nat>, c: BlockIndex)
    requires Linked(b) && AtHeights(have, b, heights) && IsAncestor(c, b)
    ensures AtHeights(have + [c], b, heights + [c.nHeight])
  {
    hide IsAncestor;
  }

  lemma IsSelf(b: BlockIndex)
    requires Linked(b)
    ensures IsAncestor(b, b) && AtHeights([], b, [])
  {
  }

  lemma AncestorOf(b: BlockIndex, c: BlockIndex, h: nat)
    requires Linked(b) && Linked(c) && IsAncestor(c, b) && h <= c.nHeight
    ensures IsAncestor(Ancestor(c, h), b)
  {
    hide Ancestor;
    AncestorThrough(b, c.nHeight, h);
  }

  /** Where the old chain already holds a block, it holds the block's ancestors below it. */
  lemma SharedBelow(was: seq<BlockIndex?>, tip: BlockIndex, b: BlockIndex)
    requires was != [] ==> was[|was| - 1] != null && Linked(was[|was| - 1]) && was == Path(was[|was| - 1])
    requires Linked(tip) && Linked(b) && b.nHeight <= tip.nHeight && b == Ancestor(tip, b.nHeight)
    requires b.nHeight < |was| && was[b.nHeight] == b
    ensures forall i :: 0 <= i <= b.nHeight ==> was[i] == Ancestor(tip, i)
  {
    hide Linked, Ancestor;
    var top := was[|was| - 1];
    forall i | 0 <= i <= b.nHeight
      ensures was[i] == Ancestor(tip, i)
    {
      AncestorThrough(tip, b.nHeight, i);
      AncestorThrough(top, b.nHeight, i);
    }
  }

  /** An ancestor that is not the block itself is at or below its parent. */
  lemma Below(c: BlockIndex, r: BlockIndex, b: BlockIndex)
    requires Linked(b) && Linked(r) && IsAncestor(r, b) && IsAncestor(c, b) && c.nHeight <= r.nHeight && c != r
    ensures r.pprev != null && c.nHeight <= r.pprev.nHeight
  {
    hide Ancestor;
  }
}
