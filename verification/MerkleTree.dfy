/**
 Merkle trees over the transaction ids of a block, and partial trees: a depth-first listing of
 flag bits and hashes that proves which transactions a block holds. The pair hash is a parameter.
 */
module MerkleTree {
  import opened Numbers
  import Levels = MerkleRoot

  type Hash = nat

  const NULL: Hash := 0
  const MAX_BLOCK_BASE_SIZE := 1000000

  type PairHash = (Hash, Hash) -> Hash

  /** A power of two times an odd number. */
  function Dyadic(a: nat, b: nat): nat { Pow2(a) * (2 * b + 1) }

  lemma {:induction false} DyadicOnce(a: nat, b: nat, c: nat, d: nat)
    ensures Dyadic(a, b) == Dyadic(c, d) ==> a == c && b == d
    decreases a
  {
    DyadicHalf(a, b);
    DyadicHalf(c, d);
    if a > 0 && c > 0 {
      DyadicOnce(a - 1, b, c - 1, d);
    }
  }

  lemma DyadicHalf(a: nat, b: nat)
    ensures Dyadic(a, b) == if a == 0 then 2 * b + 1 else 2 * Dyadic(a - 1, b)
  {
    if a > 0 {
      MulAssoc(2, Pow2(a - 1), 2 * b + 1);
    }
  }

  /** There are injective pair hashes on unbounded hashes, so that what is proved of them is not empty. */
  lemma InjectiveExists()
    ensures Levels.Injective((a, b) => Dyadic(a, b))
  {
    forall a: Hash, b: Hash, c: Hash, d: Hash | Dyadic(a, b) == Dyadic(c, d)
      ensures a == c && b == d
    {
      DyadicOnce(a, b, c, d);
    }
  }

  // ---------- shape ----------

  /** The number of nodes at a height of the tree. */
  function Width(n: nat, height: nat): nat { (n + Pow2(height) - 1) / Pow2(height) }

  function Lo(height: nat, pos: nat): nat { pos * Pow2(height) }

  /** One past the last leaf under a node. */
  function Hi(n: nat, height: nat, pos: nat): nat { if Lo(height, pos + 1) < n then Lo(height, pos + 1) else n }

  lemma CeilIff(n: nat, d: nat, q: nat)
    requires d > 0
    ensures q < (n + d - 1) / d <==> q * d < n
  {
    var w := (n + d - 1) / d;
    assert w * d <= n + d - 1 < w * d + d;
    if q < w {
      MulMono(q + 1, w, d);
    } else {
      MulMono(w, q, d);
    }
  }

  /** A node is in the tree exactly if its first leaf is. */
  lemma WidthIff(n: nat, height: nat, pos: nat)
    ensures pos < Width(n, height) <==> Lo(height, pos) < n
  {
    CeilIff(n, Pow2(height), pos);
  }

  /** The leaves under a node are those under its left child and then those under its right child, if it has one. */
  lemma Halves(n: nat, height: nat, pos: nat)
    requires height > 0 && pos < Width(n, height)
    ensures 2 * pos < Width(n, height - 1) && Lo(height, pos) == Lo(height - 1, 2 * pos)
    ensures Lo(height, pos) < Hi(n, height, pos) && Lo(height - 1, 2 * pos) < Hi(n, height - 1, 2 * pos)
    ensures if 2 * pos + 1 < Width(n, height - 1)
            then && Hi(n, height - 1, 2 * pos) == Lo(height - 1, 2 * pos + 1) < Hi(n, height - 1, 2 * pos + 1)
                 && Hi(n, height - 1, 2 * pos + 1) == Hi(n, height, pos)
            else Hi(n, height - 1, 2 * pos) == n == Hi(n, height, pos)
  {
    var p := Pow2(height - 1);
    assert Pow2(height) == 2 * p;
    Double(pos, p);
    Double(pos + 1, p);
    WidthIff(n, height, pos);
    WidthIff(n, height - 1, 2 * pos);
    WidthIff(n, height - 1, 2 * pos + 1);
  }

  lemma Double(a: nat, p: nat)
    ensures a * (2 * p) == 2 * a * p && (2 * a + 1) * p == 2 * a * p + p
  {
  }

  lemma LeafRange(n: nat, height: nat, pos: nat)
    requires pos < Width(n, height)
    ensures Lo(height, pos) < Hi(n, height, pos) <= n
    ensures height == 0 ==> Lo(height, pos) == pos && Hi(n, height, pos) == pos + 1
  {
    WidthIff(n, height, pos);
    assert Lo(height, pos + 1) == Lo(height, pos) + Pow2(height) by { Succ(pos, Pow2(height)); }
  }

  lemma Succ(a: nat, p: nat)
    ensures (a + 1) * p == a * p + p
  {
  }

  /** The height at which one node is left. */
  ghost predicate IsHeight(n: nat, height: nat) {
    Width(n, height) <= 1 && forall k :: 0 <= k < height ==> Width(n, k) > 1
  }

  lemma WidthShrinks(n: nat, height: nat)
    requires Width(n, height) > 1
    ensures Width(n, height + 1) < Width(n, height)
  {
    var w := Width(n, height);
    WidthIff(n, height, w);
    WidthIff(n, height + 1, w - 1);
    Double(w - 1, Pow2(height));
    MulMono(w, 2 * (w - 1), Pow2(height));
  }

  method TreeHeight(n: nat) returns (nHeight: nat)
    ensures IsHeight(n, nHeight)
  {
    nHeight := 0;
    while Width(n, nHeight) > 1
      invariant forall k :: 0 <= k < nHeight ==> Width(n, k) > 1
      decreases Width(n, nHeight)
    {
      WidthShrinks(n, nHeight);
      nHeight := nHeight + 1;
    }
  }

  lemma HeightUnique(n: nat, a: nat, b: nat)
    requires IsHeight(n, a) && IsHeight(n, b)
    ensures a == b
  {
  }

  /** The root covers all leaves. */
  lemma Root(n: nat, height: nat)
    requires n > 0 && IsHeight(n, height)
    ensures Width(n, height) == 1 && Lo(height, 0) == 0 && Hi(n, height, 0) == n
  {
    WidthIff(n, height, 0);
    WidthIff(n, height, 1);
  }

  // ---------- full trees ----------

  function CalcHash(h: PairHash, txids: seq<Hash>, height: nat, pos: nat): Hash
    requires pos < Width(|txids|, height)
    decreases height
  {
    if height == 0 then LeafRange(|txids|, height, pos); txids[pos]
    else
      Halves(|txids|, height, pos);
      var left := CalcHash(h, txids, height - 1, 2 * pos);
      var right := if 2 * pos + 1 < Width(|txids|, height - 1) then CalcHash(h, txids, height - 1, 2 * pos + 1) else left;
      h(left, right)
  }

  /** The width is the size of the level. */
  lemma WidthIsLevel(h: PairHash, txids: seq<Hash>, height: nat)
    requires txids != []
    ensures |Levels.Level(h, txids, height)| == Width(|txids|, height)
  {
    hide Width, Levels.Level;
    Levels.LevelSize(h, txids, height);
    var n, p := |Levels.Level(h, txids, height)|, Pow2(height);
    MulAdd(n - 1, 1, p);
    WidthIff(|txids|, height, n - 1);
    WidthIff(|txids|, height, n);
  }

  /** Nodes computed from the top are those computed level by level. */
  lemma {:induction false} CalcHashIsLevel(h: PairHash, txids: seq<Hash>, height: nat, pos: nat)
    requires txids != [] && pos < Width(|txids|, height)
    ensures pos < |Levels.Level(h, txids, height)| && CalcHash(h, txids, height, pos) == Levels.Level(h, txids, height)[pos]
    decreases height
  {
    hide Width, Levels.Level, Pow2, Lo, Hi;
    WidthIsLevel(h, txids, height);
    if height == 0 {
      LeafRange(|txids|, height, pos);
      FirstLevel(h, txids);
    } else {
      Halves(|txids|, height, pos);
      WidthIsLevel(h, txids, height - 1);
      Levels.LevelAt(h, txids, height - 1, pos);
      CalcHashIsLevel(h, txids, height - 1, 2 * pos);
      if 2 * pos + 1 < Width(|txids|, height - 1) {
        CalcHashIsLevel(h, txids, height - 1, 2 * pos + 1);
      }
    }
  }

  lemma FirstLevel(h: PairHash, txids: seq<Hash>)
    ensures Levels.Level(h, txids, 0) == txids
  {
  }

  /** The top node is the merkle root. */
  lemma TopIsRoot(h: PairHash, txids: seq<Hash>, height: nat)
    requires txids != [] && IsHeight(|txids|, height) && 0 < Width(|txids|, height)
    ensures CalcHash(h, txids, height, 0) == Levels.Root(h, txids)
  {
    hide Width, Levels.Level, Pow2, CalcHash;
    CalcHashIsLevel(h, txids, height, 0);
    WidthIsLevel(h, txids, height);
    if height > 0 {
      WidthIsLevel(h, txids, height - 1);
    }
    Levels.Top(h, txids, 0, height);
  }

  /** Equal nodes at one height have equal first leaves. */
  lemma {:induction false} EqualNodes(h: PairHash, txids: seq<Hash>, height: nat, p: nat, q: nat)
    requires Levels.Injective(h) && p < Width(|txids|, height) && q < Width(|txids|, height)
    requires CalcHash(h, txids, height, p) == CalcHash(h, txids, height, q)
    ensures Lo(height, p) < |txids| && Lo(height, q) < |txids| && txids[Lo(height, p)] == txids[Lo(height, q)]
    decreases height
  {
    LeafRange(|txids|, height, p);
    LeafRange(|txids|, height, q);
    if height > 0 {
      Halves(|txids|, height, p);
      Halves(|txids|, height, q);
      EqualNodes(h, txids, height - 1, 2 * p, 2 * q);
    }
  }

  // ---------- matches ----------

  ghost predicate AnyMatch(matches: seq<bool>, lo: nat, hi: nat)
    requires hi <= |matches|
  {
    exists p :: lo <= p < hi && matches[p]
  }

  /** The matched positions of a range, in order. */
  function Matched(matches: seq<bool>, lo: nat, hi: nat): seq<nat>
    requires hi <= |matches|
    decreases hi - lo
  {
    if lo >= hi then [] else (if matches[lo] then [lo] else []) + Matched(matches, lo + 1, hi)
  }

  lemma {:induction false} MatchedSplit(matches: seq<bool>, lo: nat, mid: nat, hi: nat)
    requires lo <= mid <= hi <= |matches|
    ensures Matched(matches, lo, hi) == Matched(matches, lo, mid) + Matched(matches, mid, hi)
    decreases mid - lo
  {
    if lo < mid {
      MatchedSplit(matches, lo + 1, mid, hi);
    }
  }

  lemma {:induction false} MatchedNone(matches: seq<bool>, lo: nat, hi: nat)
    requires lo <= hi <= |matches|
    ensures Matched(matches, lo, hi) == [] <==> !AnyMatch(matches, lo, hi)
    decreases hi - lo
  {
    if lo < hi {
      MatchedNone(matches, lo + 1, hi);
    }
  }

  /** Exactly the matched positions, each once and in order. */
  lemma {:induction false} MatchedExact(matches: seq<bool>, lo: nat, hi: nat)
    requires lo <= hi <= |matches|
    ensures Rising(Matched(matches, lo, hi), lo, hi)
    ensures forall p :: p in Matched(matches, lo, hi) <==> lo <= p < hi && matches[p]
    decreases hi - lo
  {
    if lo < hi {
      MatchedExact(matches, lo + 1, hi);
    }
  }

  /** Strictly increasing and within a range. */
  ghost predicate Rising(s: seq<nat>, lo: nat, hi: nat) {
    && (forall i :: 0 <= i < |s| ==> lo <= s[i] < hi)
    && (forall i, j :: 0 <= i < j < |s| ==> s[i] < s[j])
  }

  lemma RisingConcat(a: seq<nat>, b: seq<nat>, lo: nat, mid: nat, hi: nat)
    requires Rising(a, lo, mid) && Rising(b, mid, hi) && lo <= mid <= hi
    ensures Rising(a + b, lo, hi)
  {
  }

  /** The ids at given positions. */
  ghost predicate Leaves(txids: seq<Hash>, found: seq<Hash>, indices: seq<nat>) {
    |found| == |indices| && forall k :: 0 <= k < |indices| ==> indices[k] < |txids| && found[k] == txids[indices[k]]
  }

  lemma LeavesConcat(txids: seq<Hash>, f: seq<Hash>, i: seq<nat>, g: seq<Hash>, j: seq<nat>)
    requires Leaves(txids, f, i) && Leaves(txids, g, j)
    ensures Leaves(txids, f + g, i + j)
  {
  }

  // ---------- building ----------

  datatype Partial = Partial(bits: seq<bool>, hashes: seq<Hash>)

  ghost function Build(h: PairHash, txids: seq<Hash>, matches: seq<bool>, height: nat, pos: nat): Partial
    requires |matches| == |txids| && pos < Width(|txids|, height)
    decreases height
  {
    LeafRange(|txids|, height, pos);
    var parentOfMatch := AnyMatch(matches, Lo(height, pos), Hi(|txids|, height, pos));
    if height == 0 || !parentOfMatch then Partial([parentOfMatch], [CalcHash(h, txids, height, pos)])
    else
      Halves(|txids|, height, pos);
      var left := Build(h, txids, matches, height - 1, 2 * pos);
      if 2 * pos + 1 < Width(|txids|, height - 1) then
        var right := Build(h, txids, matches, height - 1, 2 * pos + 1);
        Partial([true] + left.bits + right.bits, left.hashes + right.hashes)
      else Partial([true] + left.bits, left.hashes)
  }

  /**
   A partial tree stores at most one hash for each leaf, at most one beside the path to each
   match at each level, and at least one bit for each hash.
   */
  lemma {:induction false} BuildSize(h: PairHash, txids: seq<Hash>, matches: seq<bool>, height: nat, pos: nat)
    requires |matches| == |txids| && pos < Width(|txids|, height)
    ensures var r := Build(h, txids, matches, height, pos);
            var lo, hi := Lo(height, pos), Hi(|txids|, height, pos);
            && 1 <= |r.hashes| <= hi - lo && |r.hashes| <= |r.bits|
            && |r.hashes| <= 1 + |Matched(matches, lo, hi)| * height
    decreases height
  {
    hide Width, Lo, Hi, Pow2, Matched, AnyMatch, CalcHash;
    var n, lo, hi := |txids|, Lo(height, pos), Hi(|txids|, height, pos);
    LeafRange(n, height, pos);
    var m := |Matched(matches, lo, hi)|;
    MatchedNone(matches, lo, hi);
    if height == 0 || !AnyMatch(matches, lo, hi) {
      MulMono(0, m, height);
    } else {
      Halves(n, height, pos);
      BuildSize(h, txids, matches, height - 1, 2 * pos);
      if 2 * pos + 1 < Width(n, height - 1) {
        BuildSize(h, txids, matches, height - 1, 2 * pos + 1);
        var mid := Lo(height - 1, 2 * pos + 1);
        MatchedSplit(matches, lo, mid, hi);
        var ml, mr := |Matched(matches, lo, mid)|, |Matched(matches, mid, hi)|;
        Fewer(ml, mr, height);
      } else {
        Fewer(m, 0, height);
      }
    }
  }

  lemma Fewer(ml: nat, mr: nat, height: nat)
    requires height > 0 && ml + mr >= 1
    ensures 1 + ml * (height - 1) + 1 + mr * (height - 1) <= 1 + (ml + mr) * height
    ensures mr == 0 ==> 1 + ml * (height - 1) <= 1 + ml * height
  {
    assert (ml + mr) * height == ml * (height - 1) + ml + mr * (height - 1) + mr;
  }

  // ---------- extracting ----------

  datatype Extract = Extract(hash: Hash, bitsUsed: nat, hashUsed: nat, found: seq<Hash>, indices: seq<nat>, bad: bool)

  function Traverse(h: PairHash, n: nat, bits: seq<bool>, hashes: seq<Hash>, height: nat, pos: nat, bitsUsed: nat, hashUsed: nat): Extract
    decreases height
  {
    if bitsUsed >= |bits| then Extract(NULL, bitsUsed, hashUsed, [], [], true)
    else if height == 0 || !bits[bitsUsed] then
      if hashUsed >= |hashes| then Extract(NULL, bitsUsed + 1, hashUsed, [], [], true)
      else
        var hit := height == 0 && bits[bitsUsed];
        Extract(hashes[hashUsed], bitsUsed + 1, hashUsed + 1, if hit then [hashes[hashUsed]] else [], if hit then [pos] else [], false)
    else
      var l := Traverse(h, n, bits, hashes, height - 1, 2 * pos, bitsUsed + 1, hashUsed);
      if 2 * pos + 1 < Width(n, height - 1) then
        var r := Traverse(h, n, bits, hashes, height - 1, 2 * pos + 1, l.bitsUsed, l.hashUsed);
        Extract(h(l.hash, r.hash), r.bitsUsed, r.hashUsed, l.found + r.found, l.indices + r.indices, l.bad || r.bad || r.hash == l.hash)
      else Extract(h(l.hash, l.hash), l.bitsUsed, l.hashUsed, l.found, l.indices, l.bad)
  }

  /** Whatever the bits and hashes, the positions found under a node increase and lie under it. */
  lemma {:induction false} TraverseRises(h: PairHash, n: nat, bits: seq<bool>, hashes: seq<Hash>, height: nat, pos: nat, b: nat, u: nat)
    requires pos < Width(n, height)
    ensures Rising(Traverse(h, n, bits, hashes, height, pos, b, u).indices, Lo(height, pos), Hi(n, height, pos))
    decreases height
  {
    LeafRange(n, height, pos);
    if b < |bits| && height > 0 && bits[b] {
      Halves(n, height, pos);
      TraverseRises(h, n, bits, hashes, height - 1, 2 * pos, b + 1, u);
      if 2 * pos + 1 < Width(n, height - 1) {
        var l := Traverse(h, n, bits, hashes, height - 1, 2 * pos, b + 1, u);
        TraverseRises(h, n, bits, hashes, height - 1, 2 * pos + 1, l.bitsUsed, l.hashUsed);
        var r := Traverse(h, n, bits, hashes, height - 1, 2 * pos + 1, l.bitsUsed, l.hashUsed);
        RisingConcat(l.indices, r.indices, Lo(height, pos), Lo(height - 1, 2 * pos + 1), Hi(n, height, pos));
      }
    }
  }

  /** A traversal without failure that ends in the true hash of a node found only real leaves. */
  lemma {:induction false} TraverseSound(h: PairHash, txids: seq<Hash>, bits: seq<bool>, hashes: seq<Hash>, height: nat, pos: nat, b: nat, u: nat)
    requires Levels.Injective(h) && pos < Width(|txids|, height)
    requires var r := Traverse(h, |txids|, bits, hashes, height, pos, b, u);
             !r.bad && r.hash == CalcHash(h, txids, height, pos)
    ensures var r := Traverse(h, |txids|, bits, hashes, height, pos, b, u);
            Leaves(txids, r.found, r.indices)
    decreases height
  {
    hide *;
    var n := |txids|;
    LeafRange(n, height, pos);
    TraverseFirst(h, txids, bits, hashes, height, pos, b, u);
    if height > 0 && bits[b] {
      Halves(n, height, pos);
      CalcNode(h, txids, height, pos);
      TraverseNode(h, n, bits, hashes, height, pos, b, u);
      var l := Traverse(h, n, bits, hashes, height - 1, 2 * pos, b + 1, u);
      var left := CalcHash(h, txids, height - 1, 2 * pos);
      if 2 * pos + 1 < Width(n, height - 1) {
        var r := Traverse(h, n, bits, hashes, height - 1, 2 * pos + 1, l.bitsUsed, l.hashUsed);
        Levels.Inject(h, l.hash, r.hash, left, CalcHash(h, txids, height - 1, 2 * pos + 1));
        TraverseSound(h, txids, bits, hashes, height - 1, 2 * pos, b + 1, u);
        TraverseSound(h, txids, bits, hashes, height - 1, 2 * pos + 1, l.bitsUsed, l.hashUsed);
        LeavesConcat(txids, l.found, l.indices, r.found, r.indices);
      } else {
        Levels.Inject(h, l.hash, l.hash, left, left);
        TraverseSound(h, txids, bits, hashes, height - 1, 2 * pos, b + 1, u);
      }
    }
  }

  /** A traversal that does not fail has a bit to look at; where it stops, it finds the leaf itself or nothing. */
  lemma TraverseFirst(h: PairHash, txids: seq<Hash>, bits: seq<bool>, hashes: seq<Hash>, height: nat, pos: nat, b: nat, u: nat)
    requires pos < Width(|txids|, height)
    requires !Traverse(h, |txids|, bits, hashes, height, pos, b, u).bad
    ensures b < |bits|
    ensures var r := Traverse(h, |txids|, bits, hashes, height, pos, b, u);
            (height == 0 || !bits[b]) && r.hash == CalcHash(h, txids, height, pos) ==> Leaves(txids, r.found, r.indices)
  {
    LeafRange(|txids|, height, pos);
  }

  lemma CalcNode(h: PairHash, txids: seq<Hash>, height: nat, pos: nat)
    requires height > 0 && pos < Width(|txids|, height) && 2 * pos < Width(|txids|, height - 1)
    ensures var hash, left := CalcHash(h, txids, height, pos), CalcHash(h, txids, height - 1, 2 * pos);
            hash == if 2 * pos + 1 < Width(|txids|, height - 1) then h(left, CalcHash(h, txids, height - 1, 2 * pos + 1)) else h(left, left)
  {
    hide Width;
  }

  ghost function At(txids: seq<Hash>, indices: seq<nat>): seq<Hash> {
    seq(|indices|, k requires 0 <= k < |indices| => if indices[k] < |txids| then txids[indices[k]] else NULL)
  }

  ghost predicate Distinct(s: seq<Hash>) { forall i, j :: 0 <= i < j < |s| ==> s[i] != s[j] }

  /** The part of a sequence that starts at `i`. */
  ghost predicate Holds<T>(s: seq<T>, i: nat, part: seq<T>) { i + |part| <= |s| && s[i..i + |part|] == part }

  lemma HoldsSplit<T>(s: seq<T>, i: nat, a: seq<T>, b: seq<T>)
    requires Holds(s, i, a + b)
    ensures Holds(s, i, a) && Holds(s, i + |a|, b)
  {
    assert s[i..i + |a|] == (a + b)[..|a|];
    assert s[i + |a|..i + |a| + |b|] == (a + b)[|a|..];
  }

  lemma HoldsOne<T>(s: seq<T>, i: nat, x: T)
    requires Holds(s, i, [x])
    ensures i < |s| && s[i] == x
  {
    assert s[i] == s[i..i + 1][0];
  }

  lemma AtConcat(txids: seq<Hash>, a: seq<nat>, b: seq<nat>)
    ensures At(txids, a + b) == At(txids, a) + At(txids, b)
  {
  }

  /** A node at which building stops gives back its hash and, as a matched leaf, itself. */
  lemma TraverseStop(h: PairHash, txids: seq<Hash>, matches: seq<bool>, height: nat, pos: nat, bits: seq<bool>, hashes: seq<Hash>, b: nat, u: nat)
    requires |matches| == |txids| && pos < Width(|txids|, height)
    requires height == 0 || !AnyMatch(matches, Lo(height, pos), Hi(|txids|, height, pos))
    requires var p := Build(h, txids, matches, height, pos); Holds(bits, b, p.bits) && Holds(hashes, u, p.hashes)
    ensures var found := Matched(matches, Lo(height, pos), Hi(|txids|, height, pos));
            Traverse(h, |txids|, bits, hashes, height, pos, b, u)
              == Extract(CalcHash(h, txids, height, pos), b + 1, u + 1, At(txids, found), found, false)
    ensures var p := Build(h, txids, matches, height, pos); |p.bits| == |p.hashes| == 1
  {
    var lo, hi := Lo(height, pos), Hi(|txids|, height, pos);
    LeafRange(|txids|, height, pos);
    HoldsOne(bits, b, AnyMatch(matches, lo, hi));
    HoldsOne(hashes, u, CalcHash(h, txids, height, pos));
    MatchedNone(matches, lo, hi);
    if height == 0 {
      assert Matched(matches, pos, pos + 1) == if matches[pos] then [pos] else [];
      assert CalcHash(h, txids, height, pos) == txids[pos];
    }
  }

  lemma BuildStop(h: PairHash, txids: seq<Hash>, matches: seq<bool>, height: nat, pos: nat)
    requires |matches| == |txids| && pos < Width(|txids|, height)
    requires height == 0 || !AnyMatch(matches, Lo(height, pos), Hi(|txids|, height, pos))
    ensures var any := AnyMatch(matches, Lo(height, pos), Hi(|txids|, height, pos));
            Build(h, txids, matches, height, pos) == Partial([any], [CalcHash(h, txids, height, pos)])
  {
    hide Width, Lo, Hi, AnyMatch;
  }

  lemma BuildNode(h: PairHash, txids: seq<Hash>, matches: seq<bool>, height: nat, pos: nat)
    requires |matches| == |txids| && height > 0 && pos < Width(|txids|, height)
    requires AnyMatch(matches, Lo(height, pos), Hi(|txids|, height, pos)) && 2 * pos < Width(|txids|, height - 1)
    ensures var p, left := Build(h, txids, matches, height, pos), Build(h, txids, matches, height - 1, 2 * pos);
            var hash, hashLeft := CalcHash(h, txids, height, pos), CalcHash(h, txids, height - 1, 2 * pos);
            if 2 * pos + 1 < Width(|txids|, height - 1)
            then
              var right := Build(h, txids, matches, height - 1, 2 * pos + 1);
              && p.bits == [true] + (left.bits + right.bits) && p.hashes == left.hashes + right.hashes
              && |p.bits| == 1 + |left.bits| + |right.bits| && |p.hashes| == |left.hashes| + |right.hashes|
              && hash == h(hashLeft, CalcHash(h, txids, height - 1, 2 * pos + 1))
            else p.bits == [true] + left.bits && |p.bits| == 1 + |left.bits| && p.hashes == left.hashes && hash == h(hashLeft, hashLeft)
  {
    hide Width, Lo, Hi, AnyMatch;
  }

  lemma TraverseNode(h: PairHash, n: nat, bits: seq<bool>, hashes: seq<Hash>, height: nat, pos: nat, b: nat, u: nat)
    requires height > 0 && b < |bits| && bits[b]
    ensures var t, l := Traverse(h, n, bits, hashes, height, pos, b, u), Traverse(h, n, bits, hashes, height - 1, 2 * pos, b + 1, u);
            if 2 * pos + 1 < Width(n, height - 1)
            then
              var r := Traverse(h, n, bits, hashes, height - 1, 2 * pos + 1, l.bitsUsed, l.hashUsed);
              t == Extract(h(l.hash, r.hash), r.bitsUsed, r.hashUsed, l.found + r.found, l.indices + r.indices, l.bad || r.bad || r.hash == l.hash)
            else t == Extract(h(l.hash, l.hash), l.bitsUsed, l.hashUsed, l.found, l.indices, l.bad)
  {
    hide Width;
  }

  /** Some node above a match has two children with equal hashes. */
  ghost predicate Twins(h: PairHash, txids: seq<Hash>, matches: seq<bool>, height: nat, pos: nat)
    requires |matches| == |txids| && pos < Width(|txids|, height)
    decreases height
  {
    LeafRange(|txids|, height, pos);
    if height == 0 || !AnyMatch(matches, Lo(height, pos), Hi(|txids|, height, pos)) then false
    else
      Halves(|txids|, height, pos);
      || Twins(h, txids, matches, height - 1, 2 * pos)
      || (2 * pos + 1 < Width(|txids|, height - 1)
          && (|| Twins(h, txids, matches, height - 1, 2 * pos + 1)
              || CalcHash(h, txids, height - 1, 2 * pos) == CalcHash(h, txids, height - 1, 2 * pos + 1)))
  }

  lemma TwinsNode(h: PairHash, txids: seq<Hash>, matches: seq<bool>, height: nat, pos: nat)
    requires |matches| == |txids| && height > 0 && pos < Width(|txids|, height) && 2 * pos < Width(|txids|, height - 1)
    requires AnyMatch(matches, Lo(height, pos), Hi(|txids|, height, pos))
    ensures Twins(h, txids, matches, height, pos) <==>
            || Twins(h, txids, matches, height - 1, 2 * pos)
            || (2 * pos + 1 < Width(|txids|, height - 1)
                && (|| Twins(h, txids, matches, height - 1, 2 * pos + 1)
                    || CalcHash(h, txids, height - 1, 2 * pos) == CalcHash(h, txids, height - 1, 2 * pos + 1)))
  {
    hide Width, Lo, Hi, AnyMatch, CalcHash;
  }

  lemma TwinsStop(h: PairHash, txids: seq<Hash>, matches: seq<bool>, height: nat, pos: nat)
    requires |matches| == |txids| && pos < Width(|txids|, height)
    requires height == 0 || !AnyMatch(matches, Lo(height, pos), Hi(|txids|, height, pos))
    ensures !Twins(h, txids, matches, height, pos)
  {
    hide Width, Lo, Hi, AnyMatch, CalcHash;
  }

  /** Distinct ids under an injective hash have no twins. */
  lemma {:induction false} NoTwins(h: PairHash, txids: seq<Hash>, matches: seq<bool>, height: nat, pos: nat)
    requires Levels.Injective(h) && Distinct(txids) && |matches| == |txids| && pos < Width(|txids|, height)
    ensures !Twins(h, txids, matches, height, pos)
    decreases height
  {
    hide *;
    LeafRange(|txids|, height, pos);
    if height == 0 || !AnyMatch(matches, Lo(height, pos), Hi(|txids|, height, pos)) {
      TwinsStop(h, txids, matches, height, pos);
    } else {
      Halves(|txids|, height, pos);
      TwinsNode(h, txids, matches, height, pos);
      NoTwins(h, txids, matches, height - 1, 2 * pos);
      if 2 * pos + 1 < Width(|txids|, height - 1) {
        NoTwins(h, txids, matches, height - 1, 2 * pos + 1);
        SiblingsDiffer(h, txids, height - 1, 2 * pos);
      }
    }
  }

  /** Traversing what was built gives back the hash and the matches, and uses up exactly what was built; it fails exactly on twins. */
  lemma {:induction false} TraverseBuilt(h: PairHash, txids: seq<Hash>, matches: seq<bool>, height: nat, pos: nat,
                                         bits: seq<bool>, hashes: seq<Hash>, b: nat, u: nat)
    requires |matches| == |txids| && pos < Width(|txids|, height)
    requires var p := Build(h, txids, matches, height, pos); Holds(bits, b, p.bits) && Holds(hashes, u, p.hashes)
    ensures var p := Build(h, txids, matches, height, pos);
            var found := Matched(matches, Lo(height, pos), Hi(|txids|, height, pos));
            Traverse(h, |txids|, bits, hashes, height, pos, b, u)
              == Extract(CalcHash(h, txids, height, pos), b + |p.bits|, u + |p.hashes|, At(txids, found), found,
                         Twins(h, txids, matches, height, pos))
    decreases height
  {
    hide *;
    var n, lo, hi := |txids|, Lo(height, pos), Hi(|txids|, height, pos);
    LeafRange(n, height, pos);
    if height == 0 || !AnyMatch(matches, lo, hi) {
      TraverseStop(h, txids, matches, height, pos, bits, hashes, b, u);
      TwinsStop(h, txids, matches, height, pos);
    } else {
      Halves(n, height, pos);
      TwinsNode(h, txids, matches, height, pos);
      BuildNode(h, txids, matches, height, pos);
      var left := Build(h, txids, matches, height - 1, 2 * pos);
      if 2 * pos + 1 < Width(n, height - 1) {
        var right, mid := Build(h, txids, matches, height - 1, 2 * pos + 1), Lo(height - 1, 2 * pos + 1);
        HoldsSplit(bits, b, [true], left.bits + right.bits);
        HoldsSplit(bits, b + 1, left.bits, right.bits);
        HoldsSplit(hashes, u, left.hashes, right.hashes);
        HoldsOne(bits, b, true);
        TraverseBuilt(h, txids, matches, height - 1, 2 * pos, bits, hashes, b + 1, u);
        TraverseBuilt(h, txids, matches, height - 1, 2 * pos + 1, bits, hashes, b + 1 + |left.bits|, u + |left.hashes|);
        TraverseNode(h, n, bits, hashes, height, pos, b, u);
        MatchedSplit(matches, lo, mid, hi);
        AtConcat(txids, Matched(matches, lo, mid), Matched(matches, mid, hi));
      } else {
        HoldsSplit(bits, b, [true], left.bits);
        HoldsOne(bits, b, true);
        TraverseBuilt(h, txids, matches, height - 1, 2 * pos, bits, hashes, b + 1, u);
        TraverseNode(h, n, bits, hashes, height, pos, b, u);
      }
    }
  }

  lemma SiblingsDiffer(h: PairHash, txids: seq<Hash>, height: nat, p: nat)
    requires Levels.Injective(h) && Distinct(txids) && p + 1 < Width(|txids|, height)
    ensures CalcHash(h, txids, height, p) != CalcHash(h, txids, height, p + 1)
  {
    if CalcHash(h, txids, height, p) == CalcHash(h, txids, height, p + 1) {
      EqualNodes(h, txids, height, p, p + 1);
      Succ(p, Pow2(height));
    }
  }
}
