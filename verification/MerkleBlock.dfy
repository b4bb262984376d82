/**
 The partial merkle tree object: built from a block, sent as a count, hashes and bytes of flag
 bits, received, and asked for the merkle root and the matches it proves.
 */
module MerkleBlock {
  import opened Bits
  import opened MerkleTree
  import Levels = MerkleRoot

  // ---------- bits in bytes ----------

  /** Bytes that hold the bits, padded with zeros. */
  ghost predicate Packs(bits: seq<bool>, bytes: seq<bv8>) {
    && |bytes| == (|bits| + 7) / 8
    && forall p :: 0 <= p < 8 * |bytes| ==> (BitAt(bytes, p) <==> p < |bits| && bits[p])
  }

  method Pack(vBits: seq<bool>) returns (vBytes: seq<bv8>)
    ensures Packs(vBits, vBytes)
  {
    hide BitAt, Set;
    vBytes := seq((|vBits| + 7) / 8, _ => 0);
    ZeroBits(vBytes);
    for p := 0 to |vBits|
      invariant |vBytes| == (|vBits| + 7) / 8
      invariant forall q :: 0 <= q < 8 * |vBytes| ==> (BitAt(vBytes, q) <==> q < p && vBits[q])
    {
      if vBits[p] {
        var next := vBytes[p / 8 := Set(vBytes[p / 8], p % 8)];
        forall q | 0 <= q < 8 * |vBytes|
          ensures BitAt(next, q) <==> p == q || BitAt(vBytes, q)
        {
          SetBit(vBytes, p, q);
        }
        vBytes := next;
      }
    }
  }

  method Unpack(vBytes: seq<bv8>) returns (vBits: seq<bool>)
    ensures |vBits| == 8 * |vBytes| && forall p :: 0 <= p < |vBits| ==> vBits[p] == BitAt(vBytes, p)
  {
    vBits := seq(8 * |vBytes|, _ => false);
    for p := 0 to |vBits|
      invariant |vBits| == 8 * |vBytes| && forall q :: 0 <= q < p ==> vBits[q] == BitAt(vBytes, q)
    {
      vBits := vBits[p := Test(vBytes[p / 8], p % 8)];
    }
  }

  // ---------- what the object computes ----------

  datatype Found = Found(root: Hash, vMatch: seq<Hash>, indices: seq<nat>)

  /** The checks around the traversal; a failed check gives the null hash. */
  ghost function Extraction(h: PairHash, n: nat, bits: seq<bool>, hashes: seq<Hash>, bad: bool, height: nat): Found {
    if n == 0 || n > MAX_BLOCK_BASE_SIZE / 60 || |hashes| > n || |bits| < |hashes| then Found(NULL, [], [])
    else
      var t := Traverse(h, n, bits, hashes, height, 0, 0, 0);
      var ok := !bad && !t.bad && (t.bitsUsed + 7) / 8 == (|bits| + 7) / 8 && t.hashUsed == |hashes|;
      Found(if ok then t.hash else NULL, t.found, t.indices)
  }

  /**
   Whatever was received, a root that is the true root of a block with as many transactions
   vouches for every match: a real id at its position, in increasing order.
   */
  lemma Soundness(h: PairHash, txids: seq<Hash>, bits: seq<bool>, hashes: seq<Hash>, bad: bool, height: nat)
    requires Levels.Injective(h) && |txids| > 0 && IsHeight(|txids|, height)
    requires Extraction(h, |txids|, bits, hashes, bad, height).root == Levels.Root(h, txids) != NULL
    ensures var f := Extraction(h, |txids|, bits, hashes, bad, height);
            Leaves(txids, f.vMatch, f.indices) && Rising(f.indices, 0, |txids|)
  {
    Root(|txids|, height);
    TopIsRoot(h, txids, height);
    TraverseSound(h, txids, bits, hashes, height, 0, 0, 0);
    TraverseRises(h, |txids|, bits, hashes, height, 0, 0, 0);
  }

  /**
   What was built from a block within the size limit, sent and received, yields exactly the matches
   and the true root; instead of the root it yields null exactly if a node above a match has two
   equal children.
   */
  lemma Completeness(h: PairHash, txids: seq<Hash>, matches: seq<bool>, height: nat, bytes: seq<bv8>, bits: seq<bool>)
    requires 0 < |txids| <= MAX_BLOCK_BASE_SIZE / 60 && |matches| == |txids|
    requires IsHeight(|txids|, height) && 0 < Width(|txids|, height)
    requires Packs(Build(h, txids, matches, height, 0).bits, bytes)
    requires |bits| == 8 * |bytes| && forall p :: 0 <= p < |bits| ==> bits[p] == BitAt(bytes, p)
    ensures var found := Matched(matches, 0, |txids|);
            Extraction(h, |txids|, bits, Build(h, txids, matches, height, 0).hashes, false, height)
              == Found(if Twins(h, txids, matches, height, 0) then NULL else Levels.Root(h, txids), At(txids, found), found)
  {
    hide Twins, Width, IsHeight, Matched, CalcHash, Traverse, BitAt, Build;
    var p := Build(h, txids, matches, height, 0);
    Root(|txids|, height);
    TopIsRoot(h, txids, height);
    BuildSize(h, txids, matches, height, 0);
    assert bits[0..|p.bits|] == p.bits;
    assert p.hashes[0..|p.hashes|] == p.hashes;
    TraverseBuilt(h, txids, matches, height, 0, bits, p.hashes, 0, 0);
  }

  // ---------- nothing is left over ----------

  /** A traversal that does not fail does not look at what follows the bits and hashes it uses. */
  lemma {:induction false} TraversePrefix(h: PairHash, n: nat, bits: seq<bool>, hashes: seq<Hash>, moreBits: seq<bool>, more: seq<Hash>,
                                          height: nat, pos: nat, b: nat, u: nat)
    requires !Traverse(h, n, bits, hashes, height, pos, b, u).bad
    ensures Traverse(h, n, bits + moreBits, hashes + more, height, pos, b, u) == Traverse(h, n, bits, hashes, height, pos, b, u)
    decreases height
  {
    hide Width;
    if height > 0 && bits[b] {
      TraversePrefix(h, n, bits, hashes, moreBits, more, height - 1, 2 * pos, b + 1, u);
      if 2 * pos + 1 < Width(n, height - 1) {
        var l := Traverse(h, n, bits, hashes, height - 1, 2 * pos, b + 1, u);
        TraversePrefix(h, n, bits, hashes, moreBits, more, height - 1, 2 * pos + 1, l.bitsUsed, l.hashUsed);
      }
    }
  }

  /** A traversal uses at least one bit, at least one hash unless it fails, and no more than there are. */
  lemma {:induction false} TraverseUses(h: PairHash, n: nat, bits: seq<bool>, hashes: seq<Hash>, height: nat, pos: nat, b: nat, u: nat)
    ensures var t := Traverse(h, n, bits, hashes, height, pos, b, u);
            b <= t.bitsUsed && u <= t.hashUsed && (!t.bad ==> b < t.bitsUsed <= |bits| && u < t.hashUsed <= |hashes|)
    decreases height
  {
    hide Width;
    if b < |bits| && height > 0 && bits[b] {
      TraverseUses(h, n, bits, hashes, height - 1, 2 * pos, b + 1, u);
      if 2 * pos + 1 < Width(n, height - 1) {
        var l := Traverse(h, n, bits, hashes, height - 1, 2 * pos, b + 1, u);
        TraverseUses(h, n, bits, hashes, height - 1, 2 * pos + 1, l.bitsUsed, l.hashUsed);
      }
    }
  }

  /** What an accepted message is like, whoever sent it. */
  lemma AcceptedShape(h: PairHash, n: nat, bits: seq<bool>, hashes: seq<Hash>, bad: bool, height: nat)
    requires Extraction(h, n, bits, hashes, bad, height).root != NULL
    ensures !bad && 0 < n <= 16666 && 0 < |hashes| <= n && |hashes| <= |bits|
  {
    TraverseUses(h, n, bits, hashes, height, 0, 0, 0);
  }

  /**
   Nothing can be appended to an accepted message: with more hashes it is refused, and with more
   bits exactly if they fill more bytes; within the last byte they change nothing.
   */
  lemma NothingAppended(h: PairHash, n: nat, bits: seq<bool>, hashes: seq<Hash>, bad: bool, height: nat, moreBits: seq<bool>, more: seq<Hash>)
    requires Extraction(h, n, bits, hashes, bad, height).root != NULL
    ensures var root := Extraction(h, n, bits + moreBits, hashes + more, bad, height).root;
            if more == [] && (|bits + moreBits| + 7) / 8 == (|bits| + 7) / 8
            then root == Extraction(h, n, bits, hashes, bad, height).root else root == NULL
  {
    hide Traverse;
    TraversePrefix(h, n, bits, hashes, moreBits, more, height, 0, 0, 0);
    if more == [] {
      assert hashes + more == hashes;
    }
  }

  /** Nothing can be left out either: without its last hash an accepted message is refused. */
  lemma NothingMissing(h: PairHash, n: nat, bits: seq<bool>, hashes: seq<Hash>, bad: bool, height: nat)
    requires Extraction(h, n, bits, hashes, bad, height).root != NULL
    ensures hashes != [] && Extraction(h, n, bits, hashes[..|hashes| - 1], bad, height).root == NULL
  {
    hide Traverse;
    AcceptedShape(h, n, bits, hashes, bad, height);
    var short := hashes[..|hashes| - 1];
    assert short + [hashes[|hashes| - 1]] == hashes && bits + [] == bits;
    if Extraction(h, n, bits, short, bad, height).root != NULL {
      NothingAppended(h, n, bits, short, bad, height, [], [hashes[|hashes| - 1]]);
    }
  }

  // ---------- the object ----------

  datatype Wire = Wire(nTransactions: nat, vHash: seq<Hash>, vBytes: seq<bv8>)

  class PartialMerkleTree {
    const pairHash: PairHash
    var nTransactions: nat
    var vBits: seq<bool>
    var vHash: seq<Hash>
    var fBad: bool

    /** From the ids of a block and a mask; a block has at least one transaction. */
    constructor (pairHash: PairHash, vTxid: seq<Hash>, vMatch: seq<bool>)
      requires |vTxid| > 0 && |vMatch| == |vTxid|
      ensures nTransactions == |vTxid| && !fBad && this.pairHash == pairHash
      ensures forall height: nat :: IsHeight(|vTxid|, height) && 0 < Width(|vTxid|, height) ==>
                vBits == Build(pairHash, vTxid, vMatch, height, 0).bits && vHash == Build(pairHash, vTxid, vMatch, height, 0).hashes
    {
      this.pairHash := pairHash;
      nTransactions, vBits, vHash, fBad := |vTxid|, [], [], false;
      new;
      var nHeight := TreeHeight(nTransactions);
      Root(nTransactions, nHeight);
      TraverseAndBuild(nHeight, 0, vTxid, vMatch);
      forall height: nat | IsHeight(|vTxid|, height)
        ensures height == nHeight
      {
        HeightUnique(|vTxid|, height, nHeight);
      }
    }

    method NodeHash(height: nat, pos: nat, vTxid: seq<Hash>) returns (hash: Hash)
      requires nTransactions == |vTxid| && pos < Width(|vTxid|, height)
      ensures hash == CalcHash(pairHash, vTxid, height, pos)
      decreases height
    {
      LeafRange(|vTxid|, height, pos);
      if height == 0 {
        return vTxid[pos];
      }
      Halves(|vTxid|, height, pos);
      var left := NodeHash(height - 1, 2 * pos, vTxid);
      var right;
      if 2 * pos + 1 < Width(nTransactions, height - 1) {
        right := NodeHash(height - 1, 2 * pos + 1, vTxid);
      } else {
        right := left;
      }
      return pairHash(left, right);
    }

    method ParentOfMatch(height: nat, pos: nat, vMatch: seq<bool>) returns (fParentOfMatch: bool)
      requires nTransactions == |vMatch| && pos < Width(nTransactions, height)
      ensures fParentOfMatch <==> AnyMatch(vMatch, Lo(height, pos), Hi(nTransactions, height, pos))
    {
      hide Width, Lo;
      LeafRange(nTransactions, height, pos);
      fParentOfMatch := false;
      var p := Lo(height, pos);
      while p < Lo(height, pos + 1) && p < nTransactions
        invariant Lo(height, pos) <= p <= Hi(nTransactions, height, pos)
        invariant fParentOfMatch <==> AnyMatch(vMatch, Lo(height, pos), p)
      {
        fParentOfMatch := fParentOfMatch || vMatch[p];
        p := p + 1;
      }
    }

    method TraverseAndBuild(height: nat, pos: nat, vTxid: seq<Hash>, vMatch: seq<bool>)
      requires nTransactions == |vTxid| == |vMatch| && pos < Width(|vTxid|, height)
      modifies this`vBits, this`vHash
      ensures vBits == old(vBits) + Build(pairHash, vTxid, vMatch, height, pos).bits
      ensures vHash == old(vHash) + Build(pairHash, vTxid, vMatch, height, pos).hashes
      decreases height
    {
      hide *;
      var fParentOfMatch := ParentOfMatch(height, pos, vMatch);
      vBits := vBits + [fParentOfMatch];
      if height == 0 || !fParentOfMatch {
        BuildStop(pairHash, vTxid, vMatch, height, pos);
        var hash := NodeHash(height, pos, vTxid);
        vHash := vHash + [hash];
      } else {
        Halves(nTransactions, height, pos);
        BuildNode(pairHash, vTxid, vMatch, height, pos);
        TraverseAndBuild(height - 1, 2 * pos, vTxid, vMatch);
        if 2 * pos + 1 < Width(nTransactions, height - 1) {
          TraverseAndBuild(height - 1, 2 * pos + 1, vTxid, vMatch);
        }
      }
    }

    method TraverseAndExtract(height: nat, pos: nat, nBitsUsed: nat, nHashUsed: nat, vMatch: seq<Hash>, vnIndex: seq<nat>)
      returns (hash: Hash, nBitsUsed': nat, nHashUsed': nat, vMatch': seq<Hash>, vnIndex': seq<nat>)
      modifies this`fBad
      ensures var t := Traverse(pairHash, nTransactions, vBits, vHash, height, pos, nBitsUsed, nHashUsed);
              && hash == t.hash && nBitsUsed' == t.bitsUsed && nHashUsed' == t.hashUsed
              && vMatch' == vMatch + t.found && vnIndex' == vnIndex + t.indices && fBad == (old(fBad) || t.bad)
      decreases height
    {
      hide Width;
      nBitsUsed', nHashUsed', vMatch', vnIndex' := nBitsUsed, nHashUsed, vMatch, vnIndex;
      if nBitsUsed' >= |vBits| {
        fBad := true;
        return NULL, nBitsUsed', nHashUsed', vMatch', vnIndex';
      }
      var fParentOfMatch := vBits[nBitsUsed'];
      nBitsUsed' := nBitsUsed' + 1;
      if height == 0 || !fParentOfMatch {
        if nHashUsed' >= |vHash| {
          fBad := true;
          return NULL, nBitsUsed', nHashUsed', vMatch', vnIndex';
        }
        hash := vHash[nHashUsed'];
        nHashUsed' := nHashUsed' + 1;
        if height == 0 && fParentOfMatch {
          vMatch', vnIndex' := vMatch' + [hash], vnIndex' + [pos];
        }
      } else {
        hash, nBitsUsed', nHashUsed', vMatch', vnIndex' :=
          ExtractNode(height, pos, nBitsUsed', nHashUsed', vMatch', vnIndex', nBitsUsed);
      }
    }

    /** Descend below a node whose flag bit, at `b`, is set. */
    method ExtractNode(height: nat, pos: nat, nBitsUsed: nat, nHashUsed: nat, vMatch: seq<Hash>, vnIndex: seq<nat>, ghost b: nat)
      returns (hash: Hash, nBitsUsed': nat, nHashUsed': nat, vMatch': seq<Hash>, vnIndex': seq<nat>)
      requires height > 0 && b < |vBits| && vBits[b] && nBitsUsed == b + 1
      modifies this`fBad
      ensures var t := Traverse(pairHash, nTransactions, vBits, vHash, height, pos, b, nHashUsed);
              && hash == t.hash && nBitsUsed' == t.bitsUsed && nHashUsed' == t.hashUsed
              && vMatch' == vMatch + t.found && vnIndex' == vnIndex + t.indices && fBad == (old(fBad) || t.bad)
      decreases height, 0
    {
      hide Width, Traverse;
      TraverseNode(pairHash, nTransactions, vBits, vHash, height, pos, b, nHashUsed);
      var left, right;
      left, nBitsUsed', nHashUsed', vMatch', vnIndex' := TraverseAndExtract(height - 1, 2 * pos, nBitsUsed, nHashUsed, vMatch, vnIndex);
      if 2 * pos + 1 < Width(nTransactions, height - 1) {
        right, nBitsUsed', nHashUsed', vMatch', vnIndex' :=
          TraverseAndExtract(height - 1, 2 * pos + 1, nBitsUsed', nHashUsed', vMatch', vnIndex');
        if right == left {
          fBad := true;
        }
      } else {
        right := left;
      }
      hash := pairHash(left, right);
    }

    /** The root and the matches; the list of positions is appended to, not cleared. */
    method ExtractMatches(vnIndex: seq<nat>) returns (root: Hash, vMatch: seq<Hash>, vnIndex': seq<nat>)
      modifies this`fBad
      ensures forall height: nat :: IsHeight(nTransactions, height) ==>
                var f := Extraction(pairHash, nTransactions, vBits, vHash, old(fBad), height);
                root == f.root && vMatch == f.vMatch && vnIndex' == vnIndex + f.indices
    {
      hide Traverse, Width;
      vMatch, vnIndex' := [], vnIndex;
      if nTransactions == 0 {
        return NULL, vMatch, vnIndex';
      }
      if nTransactions > MAX_BLOCK_BASE_SIZE / 60 {
        return NULL, vMatch, vnIndex';
      }
      if |vHash| > nTransactions {
        return NULL, vMatch, vnIndex';
      }
      if |vBits| < |vHash| {
        return NULL, vMatch, vnIndex';
      }
      var nHeight := TreeHeight(nTransactions);
      forall height: nat | IsHeight(nTransactions, height)
        ensures height == nHeight
      {
        HeightUnique(nTransactions, height, nHeight);
      }
      var nBitsUsed, nHashUsed := 0, 0;
      var hashMerkleRoot;
      hashMerkleRoot, nBitsUsed, nHashUsed, vMatch, vnIndex' := TraverseAndExtract(nHeight, 0, nBitsUsed, nHashUsed, vMatch, vnIndex');
      if fBad {
        return NULL, vMatch, vnIndex';
      }
      if (nBitsUsed + 7) / 8 != (|vBits| + 7) / 8 {
        return NULL, vMatch, vnIndex';
      }
      if nHashUsed != |vHash| {
        return NULL, vMatch, vnIndex';
      }
      return hashMerkleRoot, vMatch, vnIndex';
    }

    method Serialize() returns (w: Wire)
      ensures w.nTransactions == nTransactions && w.vHash == vHash && Packs(vBits, w.vBytes)
    {
      var vBytes := Pack(vBits);
      w := Wire(nTransactions, vHash, vBytes);
    }

    constructor Unserialize(pairHash: PairHash, w: Wire)
      ensures nTransactions == w.nTransactions && vHash == w.vHash && !fBad && this.pairHash == pairHash
      ensures |vBits| == 8 * |w.vBytes| && forall p :: 0 <= p < |vBits| ==> vBits[p] == BitAt(w.vBytes, p)
    {
      var bits := Unpack(w.vBytes);
      this.pairHash := pairHash;
      nTransactions, vHash, vBits, fBad := w.nTransactions, w.vHash, bits, false;
    }
  }

  /** One node builds a partial tree and sends it, another receives it and extracts the matches. */
  method Exchange(pairHash: PairHash, vTxid: seq<Hash>, matches: seq<bool>) returns (root: Hash, vMatch: seq<Hash>, vnIndex: seq<nat>)
    requires Levels.Injective(pairHash) && Distinct(vTxid) && 0 < |vTxid| <= MAX_BLOCK_BASE_SIZE / 60 && |matches| == |vTxid|
    ensures root == Levels.Root(pairHash, vTxid)
    ensures vnIndex == Matched(matches, 0, |vTxid|) && vMatch == At(vTxid, vnIndex)
  {
    hide Levels.Injective, Distinct, Twins, Width, IsHeight, Matched, CalcHash, Traverse, BitAt, Build, Extraction, Packs;
    ghost var height := TreeHeight(|vTxid|);
    Root(|vTxid|, height);
    var sender := new PartialMerkleTree(pairHash, vTxid, matches);
    var w := sender.Serialize();
    var receiver := new PartialMerkleTree.Unserialize(pairHash, w);
    Completeness(pairHash, vTxid, matches, height, w.vBytes, receiver.vBits);
    NoTwins(pairHash, vTxid, matches, height, 0);
    root, vMatch, vnIndex := receiver.ExtractMatches([]);
    assert IsHeight(receiver.nTransactions, height);
    assert [] + Matched(matches, 0, |vTxid|) == Matched(matches, 0, |vTxid|);
  }
}
