/**
 Merged mining: when a parent block's coinbase is accepted as proof of work for an auxiliary
 block. Hashes are byte strings and the pair hash is a parameter.
 */
module AuxPow {
  import opened Basics
  import opened Numbers
  import Levels = MerkleRoot

  type Bytes = seq<bv8>

  type PairHash = (Bytes, Bytes) -> Bytes

  const HEADER: Bytes := [0xfa, 0xbe, 0x6d, 0x6d]
  const HASH_SIZE: nat := 32

  // ---------- merkle branches ----------

  /** One level up: the low bit of the index says on which side the hash goes. */
  function Join(h: PairHash, hash: Bytes, sibling: Bytes, index: int): Bytes {
    if index % 2 == 1 then h(sibling, hash) else h(hash, sibling)
  }

  function Climb(h: PairHash, hash: Bytes, branch: seq<Bytes>, index: int): Bytes
    decreases |branch|
  {
    if branch == [] then hash else Climb(h, Join(h, hash, branch[0], index), branch[1..], index / 2)
  }

  function NullHash(): Bytes { seq(HASH_SIZE, _ => 0) }

  /** The root that a branch leads to; index -1 stands for no position. */
  function BranchRoot(h: PairHash, hash: Bytes, branch: seq<Bytes>, index: int): Bytes {
    if index == -1 then NullHash() else Climb(h, hash, branch, index)
  }

  method CheckMerkleBranch(h: PairHash, hash0: Bytes, vMerkleBranch: seq<Bytes>, nIndex0: int) returns (hash: Bytes)
    ensures hash == BranchRoot(h, hash0, vMerkleBranch, nIndex0)
  {
    if nIndex0 == -1 {
      return NullHash();
    }
    hash := hash0;
    var nIndex := nIndex0;
    for it := 0 to |vMerkleBranch|
      invariant Climb(h, hash, vMerkleBranch[it..], nIndex) == Climb(h, hash0, vMerkleBranch, nIndex0)
    {
      assert vMerkleBranch[it..][1..] == vMerkleBranch[it + 1..];
      if nIndex % 2 == 1 {
        hash := h(vMerkleBranch[it], hash);
      } else {
        hash := h(hash, vMerkleBranch[it]);
      }
      nIndex := nIndex / 2;
    }
  }

  /** The branch of a transaction in a block leads to the merkle root of the block. */
  lemma BranchLeads(h: PairHash, txHashes: seq<Bytes>, pos: nat)
    requires pos < |txHashes|
    ensures BranchRoot(h, txHashes[pos], Levels.Branch(h, txHashes, pos), pos) == Levels.Root(h, txHashes)
  {
    Levels.BranchProves(h, txHashes, pos);
    ClimbIs(h, txHashes[pos], Levels.Branch(h, txHashes, pos), pos);
  }

  lemma {:induction false} ClimbIs(h: PairHash, hash: Bytes, branch: seq<Bytes>, pos: nat)
    ensures Climb(h, hash, branch, pos) == Levels.Climbed(h, hash, branch, pos)
    decreases |branch|
  {
    if branch != [] {
      ClimbIs(h, Join(h, hash, branch[0], pos), branch[1..], pos / 2);
    }
  }

  /** The two hashes that are hashed together one level up. */
  function Joined(hash: Bytes, sibling: Bytes, index: int): (Bytes, Bytes) {
    if index % 2 == 1 then (sibling, hash) else (hash, sibling)
  }

  /** The pairs that are hashed on the way up a branch. */
  function Pairs(h: PairHash, hash: Bytes, branch: seq<Bytes>, index: int): seq<(Bytes, Bytes)>
    decreases |branch|
  {
    if branch == [] then []
    else [Joined(hash, branch[0], index)] + Pairs(h, Join(h, hash, branch[0], index), branch[1..], index / 2)
  }

  /** No two different pairs, one from each list, have one hash. */
  ghost predicate NoCollision(h: PairHash, us: seq<(Bytes, Bytes)>, vs: seq<(Bytes, Bytes)>) {
    forall i, j :: 0 <= i < |us| && 0 <= j < |vs| && h(us[i].0, us[i].1) == h(vs[j].0, vs[j].1) ==> us[i] == vs[j]
  }

  /** Without a collision on the way, branches of one length from one index to one root are the same and start at one hash. */
  lemma {:induction false} ClimbExact(h: PairHash, a: Bytes, p: seq<Bytes>, b: Bytes, q: seq<Bytes>, index: int)
    requires NoCollision(h, Pairs(h, a, p, index), Pairs(h, b, q, index))
    requires |p| == |q| && Climb(h, a, p, index) == Climb(h, b, q, index)
    ensures a == b && p == q
    decreases |p|
  {
    if p != [] {
      var us, vs := Pairs(h, a, p, index), Pairs(h, b, q, index);
      var a', b' := Join(h, a, p[0], index), Join(h, b, q[0], index);
      assert forall i :: 0 <= i < |us| - 1 ==> Pairs(h, a', p[1..], index / 2)[i] == us[i + 1];
      assert forall i :: 0 <= i < |vs| - 1 ==> Pairs(h, b', q[1..], index / 2)[i] == vs[i + 1];
      ClimbExact(h, a', p[1..], b', q[1..], index / 2);
      assert us[0] == vs[0];
      assert p == [p[0]] + p[1..] && q == [q[0]] + q[1..];
    }
  }

  // ---------- searching ----------

  predicate OccursAt(s: Bytes, needle: Bytes, i: nat) { i + |needle| <= |s| && s[i..i + |needle|] == needle }

  /** The first occurrence at or after a position, or the end. */
  function Search(s: Bytes, from: nat, needle: Bytes): (i: nat)
    requires from <= |s|
    ensures from <= i <= |s|
    ensures i < |s| ==> OccursAt(s, needle, i)
    ensures forall k :: from <= k < i ==> !OccursAt(s, needle, k)
    ensures i == |s| && needle != [] ==> forall k :: from <= k ==> !OccursAt(s, needle, k)
    decreases |s| - from
  {
    if from == |s| || OccursAt(s, needle, from) then from else Search(s, from + 1, needle)
  }

  function Reverse(s: Bytes): (r: Bytes)
    ensures |r| == |s|
  {
    seq(|s|, i requires 0 <= i < |s| => s[|s| - 1 - i])
  }

  lemma ReverseInjective(a: Bytes, b: Bytes)
    requires Reverse(a) == Reverse(b)
    ensures a == b
  {
    assert |Reverse(a)| == |Reverse(b)|;
    forall i | 0 <= i < |a|
      ensures a[i] == b[i]
    {
      assert Reverse(a)[|a| - 1 - i] == Reverse(b)[|a| - 1 - i];
    }
  }

  function WordAt(s: Bytes, i: nat): nat
    requires i + 4 <= |s|
  {
    LittleEndian(s[i] as nat, s[i + 1] as nat, s[i + 2] as nat, s[i + 3] as nat)
  }

  // ---------- the expected index ----------

  const WORD: nat := 0x1_0000_0000

  /** The slot of a chain, in 32-bit arithmetic. */
  function GetExpectedIndex(nNonce: nat, nChainId: int, h: nat): (r: nat)
    requires h <= 30
    ensures r < Pow2(h)
  {
    var rand := (nNonce * 1103515245 + 12345) % WORD;
    var rand2 := (rand + nChainId % WORD) % WORD;
    var rand3 := (rand2 * 1103515245 + 12345) % WORD;
    rand3 % Pow2(h)
  }

  /** The same slot results without a word size. */
  lemma ExpectedIndexExact(nNonce: nat, nChainId: int, h: nat)
    requires h <= 30
    ensures GetExpectedIndex(nNonce, nChainId, h) == ((nNonce * 1103515245 + 12345 + nChainId) * 1103515245 + 12345) % Pow2(h)
  {
    hide Pow2;
    var x := nNonce * 1103515245 + 12345;
    SumMod(x, nChainId, WORD);
    LinearMod(x + nChainId, 1103515245, 12345, WORD);
    ModPower((x + nChainId) * 1103515245 + 12345, h);
  }

  lemma SumMod(x: int, y: int, m: nat)
    requires m > 0
    ensures (x % m + y % m) % m == (x + y) % m
  {
    DivMod(x, m);
    DivMod(y, m);
    MulAdd(x / m, y / m, m);
    ModAdd(x % m + y % m, x / m + y / m, m);
  }

  lemma LinearMod(x: int, a: int, c: int, m: nat)
    requires m > 0
    ensures (x % m * a + c) % m == (x * a + c) % m
  {
    DivMod(x, m);
    MulAdd(x / m * m, x % m, a);
    MulComm(x / m * m, a);
    MulAssoc(a, x / m, m);
    ModAdd(x % m * a + c, a * (x / m), m);
  }

  lemma ModPower(x: int, h: nat)
    requires h <= 30
    ensures x % WORD % Pow2(h) == x % Pow2(h)
  {
    var d, e := Pow2(h), Pow2(32 - h);
    Pow2Values();
    Pow2Add(32 - h, h);
    DivMod(x, WORD);
    MulAssoc(x / WORD, e, d);
    ModAdd(x % WORD, x / WORD * e, d);
  }

  // ---------- acceptance ----------

  datatype AuxPow = AuxPow(
    nIndex: int, parentChainId: int, vChainMerkleBranch: seq<Bytes>, nChainIndex: int,
    txHash: Bytes, vMerkleBranch: seq<Bytes>, hashMerkleRoot: Bytes, script: Bytes)

  datatype Verdict =
    | Accepted
    | NotAGenerate
    | ParentHasOurChainId
    | BranchTooLong
    | MerkleRootIncorrect
    | MissingChainRoot
    | MultipleHeaders
    | HeaderNotJustBefore
    | RootTooLate
    | MissingSizeAndNonce
    | SizeMismatch
    | WrongIndex

  function Check(h: PairHash, p: AuxPow, hashAuxBlock: Bytes, nChainId: int, strictChainId: bool): Verdict {
    if p.nIndex != 0 then NotAGenerate
    else if strictChainId && p.parentChainId == nChainId then ParentHasOurChainId
    else if |p.vChainMerkleBranch| > 30 then BranchTooLong
    else
      var vchRootHash := Reverse(BranchRoot(h, hashAuxBlock, p.vChainMerkleBranch, p.nChainIndex));
      if BranchRoot(h, p.txHash, p.vMerkleBranch, p.nIndex) != p.hashMerkleRoot then MerkleRootIncorrect
      else
        var end := |p.script|;
        var pcHead := Search(p.script, 0, HEADER);
        var pc := Search(p.script, 0, vchRootHash);
        if pc == end then MissingChainRoot
        else if pcHead != end && Search(p.script, pcHead + 1, HEADER) != end then MultipleHeaders
        else if pcHead != end && pcHead + |HEADER| != pc then HeaderNotJustBefore
        else if pcHead == end && pc > 20 then RootTooLate
        else Tail(p, pc + |vchRootHash|, nChainId)
  }

  /** The checks on what follows the root: the size of the tree and the nonce. */
  function Tail(p: AuxPow, pc: nat, nChainId: int): Verdict
    requires |p.vChainMerkleBranch| <= 30
  {
    if |p.script| < pc + 8 then MissingSizeAndNonce
    else if WordAt(p.script, pc) != Pow2(|p.vChainMerkleBranch|) then SizeMismatch
    else if p.nChainIndex != GetExpectedIndex(WordAt(p.script, pc + 4), nChainId, |p.vChainMerkleBranch|) then WrongIndex
    else Accepted
  }

  /** What an accepted proof says about a script with a header: the root stands right after the only header. */
  lemma AcceptedFacts(h: PairHash, p: AuxPow, hash: Bytes, nChainId: int, strictChainId: bool, at: nat)
    requires Check(h, p, hash, nChainId, strictChainId) == Accepted && OccursAt(p.script, HEADER, at)
    ensures |p.vChainMerkleBranch| <= 30
    ensures var root := Reverse(BranchRoot(h, hash, p.vChainMerkleBranch, p.nChainIndex));
            OccursAt(p.script, root, at + 4) && Tail(p, at + 4 + |root|, nChainId) == Accepted
    ensures forall k :: OccursAt(p.script, HEADER, k) ==> k == at
  {
    hide Tail, BranchRoot, Reverse;
    var pcHead := Search(p.script, 0, HEADER);
    assert at < |p.script|;
    assert pcHead <= at && pcHead < |p.script|;
    var second := Search(p.script, pcHead + 1, HEADER);
    assert forall k :: pcHead + 1 <= k ==> !OccursAt(p.script, HEADER, k);
  }

  /** What the tail of a script must say for a proof: the size of its tree, then a nonce that gives its slot. */
  ghost predicate TailStates(p: AuxPow, pc: nat, nChainId: int)
    requires |p.vChainMerkleBranch| <= 30
  {
    && pc + 8 <= |p.script| && WordAt(p.script, pc) == Pow2(|p.vChainMerkleBranch|)
    && p.nChainIndex == GetExpectedIndex(WordAt(p.script, pc + 4), nChainId, |p.vChainMerkleBranch|)
  }

  /**
   For a script with the header, a proof is accepted exactly if it is a coinbase of another chain, its
   branch is short enough, the coinbase is in the parent block, the header occurs once, the root of
   its branch occurs first right after the header, and the tail states its size and slot.
   */
  lemma AcceptedIff(h: PairHash, p: AuxPow, hash: Bytes, nChainId: int, strictChainId: bool, at: nat)
    requires OccursAt(p.script, HEADER, at) && |hash| == HASH_SIZE && (forall x, y :: |h(x, y)| == HASH_SIZE)
    ensures Check(h, p, hash, nChainId, strictChainId) == Accepted <==>
            && p.nIndex == 0 && !(strictChainId && p.parentChainId == nChainId) && |p.vChainMerkleBranch| <= 30
            && BranchRoot(h, p.txHash, p.vMerkleBranch, 0) == p.hashMerkleRoot
            && (forall k :: OccursAt(p.script, HEADER, k) ==> k == at)
            && var root := Reverse(BranchRoot(h, hash, p.vChainMerkleBranch, p.nChainIndex));
               && OccursAt(p.script, root, at + 4) && (forall k :: 0 <= k < at + 4 ==> !OccursAt(p.script, root, k))
               && TailStates(p, at + 4 + HASH_SIZE, nChainId)
  {
    hide Climb, Reverse, WordAt, GetExpectedIndex, BranchRoot;
    RootSize(h, hash, p.vChainMerkleBranch, p.nChainIndex);
    var root := Reverse(BranchRoot(h, hash, p.vChainMerkleBranch, p.nChainIndex));
    var pcHead, pc := Search(p.script, 0, HEADER), Search(p.script, 0, root);
    assert pcHead <= at < |p.script|;
    if Check(h, p, hash, nChainId, strictChainId) == Accepted {
      AcceptedFacts(h, p, hash, nChainId, strictChainId, at);
    }
  }

  /**
   For a script without the header, a proof is accepted exactly if it is a coinbase of another chain,
   its branch is short enough, the coinbase is in the parent block, and the first place where the root
   of its branch stands is among the first twenty, with a tail that states its size and slot.
   */
  lemma HeaderlessAcceptedIff(h: PairHash, p: AuxPow, hash: Bytes, nChainId: int, strictChainId: bool)
    requires |hash| == HASH_SIZE && (forall x, y :: |h(x, y)| == HASH_SIZE) && forall k :: !OccursAt(p.script, HEADER, k)
    ensures Check(h, p, hash, nChainId, strictChainId) == Accepted <==>
            && p.nIndex == 0 && !(strictChainId && p.parentChainId == nChainId) && |p.vChainMerkleBranch| <= 30
            && BranchRoot(h, p.txHash, p.vMerkleBranch, 0) == p.hashMerkleRoot
            && exists at: nat :: at <= 20 && RootFirstAt(h, p, hash, at) && TailStates(p, at + HASH_SIZE, nChainId)
  {
    hide Climb, Reverse, WordAt, GetExpectedIndex, BranchRoot;
    RootSize(h, hash, p.vChainMerkleBranch, p.nChainIndex);
    var root := Reverse(BranchRoot(h, hash, p.vChainMerkleBranch, p.nChainIndex));
    var pc := Search(p.script, 0, root);
    assert Search(p.script, 0, HEADER) == |p.script|;
    if Check(h, p, hash, nChainId, strictChainId) == Accepted {
      assert RootFirstAt(h, p, hash, pc);
    }
    forall at: nat | RootFirstAt(h, p, hash, at)
      ensures pc == at
    {
    }
  }

  /** The first place where the root of a proof stands in its script. */
  ghost predicate RootFirstAt(h: PairHash, p: AuxPow, hash: Bytes, at: nat) {
    var root := Reverse(BranchRoot(h, hash, p.vChainMerkleBranch, p.nChainIndex));
    OccursAt(p.script, root, at) && forall k :: 0 <= k < at ==> !OccursAt(p.script, root, k)
  }

  lemma {:induction false} Pow2Injective(a: nat, b: nat)
    requires Pow2(a) == Pow2(b)
    ensures a == b
  {
    if a < b {
      Pow2Mono(a + 1, b);
    } else if b < a {
      Pow2Mono(b + 1, a);
    }
  }

  /** Two accepted proofs whose roots are found at one place of one script, without a collision on the way to them, agree. */
  lemma SamePlace(h: PairHash, p: AuxPow, a: Bytes, q: AuxPow, b: Bytes, nChainId: int, pc: nat)
    requires (forall x, y :: |h(x, y)| == HASH_SIZE) && |a| == |b| == HASH_SIZE && p.script == q.script
    requires |p.vChainMerkleBranch| <= 30 && |q.vChainMerkleBranch| <= 30
    requires OccursAt(p.script, Reverse(BranchRoot(h, a, p.vChainMerkleBranch, p.nChainIndex)), pc)
    requires OccursAt(q.script, Reverse(BranchRoot(h, b, q.vChainMerkleBranch, q.nChainIndex)), pc)
    requires Tail(p, pc + HASH_SIZE, nChainId) == Accepted && Tail(q, pc + HASH_SIZE, nChainId) == Accepted
    requires NoCollision(h, Pairs(h, a, p.vChainMerkleBranch, p.nChainIndex), Pairs(h, b, q.vChainMerkleBranch, q.nChainIndex))
    ensures a == b && p.vChainMerkleBranch == q.vChainMerkleBranch && p.nChainIndex == q.nChainIndex
  {
    hide Climb, NoCollision, Pairs;
    RootSize(h, a, p.vChainMerkleBranch, p.nChainIndex);
    RootSize(h, b, q.vChainMerkleBranch, q.nChainIndex);
    ReverseInjective(BranchRoot(h, a, p.vChainMerkleBranch, p.nChainIndex), BranchRoot(h, b, q.vChainMerkleBranch, q.nChainIndex));
    Pow2Injective(|p.vChainMerkleBranch|, |q.vChainMerkleBranch|);
    ClimbExact(h, a, p.vChainMerkleBranch, b, q.vChainMerkleBranch, p.nChainIndex);
  }

  /**
   One coinbase, one block: two proofs that rest on the same coinbase script, with the merged
   mining header in it, and that are accepted for one chain id, are proofs for the same hash,
   unless their branches exhibit a collision of the hash.
   */
  lemma OneBlockPerCoinbase(h: PairHash, p: AuxPow, a: Bytes, q: AuxPow, b: Bytes, nChainId: int, strictP: bool, strictQ: bool, at: nat)
    requires (forall x, y :: |h(x, y)| == HASH_SIZE) && |a| == |b| == HASH_SIZE
    requires p.script == q.script && OccursAt(p.script, HEADER, at)
    requires Check(h, p, a, nChainId, strictP) == Accepted && Check(h, q, b, nChainId, strictQ) == Accepted
    requires NoCollision(h, Pairs(h, a, p.vChainMerkleBranch, p.nChainIndex), Pairs(h, b, q.vChainMerkleBranch, q.nChainIndex))
    ensures a == b && p.vChainMerkleBranch == q.vChainMerkleBranch && p.nChainIndex == q.nChainIndex
  {
    hide Check, Climb, NoCollision, Pairs, Search, Tail, BranchRoot, Reverse;
    AcceptedFacts(h, p, a, nChainId, strictP, at);
    AcceptedFacts(h, q, b, nChainId, strictQ, at);
    RootSize(h, a, p.vChainMerkleBranch, p.nChainIndex);
    RootSize(h, b, q.vChainMerkleBranch, q.nChainIndex);
    SamePlace(h, p, a, q, b, nChainId, at + 4);
  }

  /** Where the root of a proof is first found in its script. */
  function RootPlace(h: PairHash, p: AuxPow, hash: Bytes): nat {
    Search(p.script, 0, Reverse(BranchRoot(h, hash, p.vChainMerkleBranch, p.nChainIndex)))
  }

  /** What an accepted proof says about a script without a header: the root starts early, and its tail fits. */
  lemma HeaderlessFacts(h: PairHash, p: AuxPow, hash: Bytes, nChainId: int, strictChainId: bool)
    requires Check(h, p, hash, nChainId, strictChainId) == Accepted && forall k :: !OccursAt(p.script, HEADER, k)
    ensures |p.vChainMerkleBranch| <= 30 && RootPlace(h, p, hash) <= 20
    ensures var root := Reverse(BranchRoot(h, hash, p.vChainMerkleBranch, p.nChainIndex));
            OccursAt(p.script, root, RootPlace(h, p, hash)) && Tail(p, RootPlace(h, p, hash) + |root|, nChainId) == Accepted
  {
    hide Tail, BranchRoot, Reverse;
  }

  /** Without the header, two accepted proofs on one script agree exactly if their roots start at one place. */
  lemma HeaderlessIff(h: PairHash, p: AuxPow, a: Bytes, q: AuxPow, b: Bytes, nChainId: int, strictP: bool, strictQ: bool)
    requires (forall x, y :: |h(x, y)| == HASH_SIZE) && |a| == |b| == HASH_SIZE
    requires p.script == q.script && forall k :: !OccursAt(p.script, HEADER, k)
    requires Check(h, p, a, nChainId, strictP) == Accepted && Check(h, q, b, nChainId, strictQ) == Accepted
    requires NoCollision(h, Pairs(h, a, p.vChainMerkleBranch, p.nChainIndex), Pairs(h, b, q.vChainMerkleBranch, q.nChainIndex))
    ensures (a == b && p.vChainMerkleBranch == q.vChainMerkleBranch && p.nChainIndex == q.nChainIndex)
            <==> RootPlace(h, p, a) == RootPlace(h, q, b)
  {
    hide Check, Climb, NoCollision, Pairs, Search, Tail, BranchRoot, Reverse;
    HeaderlessFacts(h, p, a, nChainId, strictP);
    HeaderlessFacts(h, q, b, nChainId, strictQ);
    RootSize(h, a, p.vChainMerkleBranch, p.nChainIndex);
    RootSize(h, b, q.vChainMerkleBranch, q.nChainIndex);
    if RootPlace(h, p, a) == RootPlace(h, q, b) {
      SamePlace(h, p, a, q, b, nChainId, RootPlace(h, p, a));
    }
  }

  lemma {:induction false} RootSize(h: PairHash, hash: Bytes, branch: seq<Bytes>, index: int)
    requires (forall x, y :: |h(x, y)| == HASH_SIZE) && |hash| == HASH_SIZE
    ensures |BranchRoot(h, hash, branch, index)| == HASH_SIZE
    decreases |branch|
  {
    if index != -1 && branch != [] {
      ClimbSize(h, hash, branch, index);
    }
  }

  lemma {:induction false} ClimbSize(h: PairHash, hash: Bytes, branch: seq<Bytes>, index: int)
    requires (forall x, y :: |h(x, y)| == HASH_SIZE) && |hash| == HASH_SIZE
    ensures |Climb(h, hash, branch, index)| == HASH_SIZE
    decreases |branch|
  {
    if branch != [] {
      ClimbSize(h, Join(h, hash, branch[0], index), branch[1..], index / 2);
    }
  }

  // ---------- examples ----------

  lemma ReverseTwice(s: Bytes)
    ensures Reverse(Reverse(s)) == s
  {
  }

  function Repeat(b: bv8, n: nat): Bytes { seq(n, _ => b) }

  /** A tree size of one or two and nonce zero, as a script ends. */
  function End(size: bv8): Bytes { [size, 0, 0, 0, 0, 0, 0, 0] }

  lemma EndStates(s: Bytes, pc: nat, size: bv8)
    requires pc + 8 <= |s| && s[pc..pc + 8] == End(size)
    ensures WordAt(s, pc) == size as nat && WordAt(s, pc + 4) == 0
  {
    hide LittleEndian;
    var t := s[pc..pc + 8];
    assert t[0] == s[pc] && t[1] == s[pc + 1] && t[2] == s[pc + 2] && t[3] == s[pc + 3];
    assert t[4] == s[pc + 4] && t[5] == s[pc + 5] && t[6] == s[pc + 6] && t[7] == s[pc + 7];
    OneByte(size as nat);
    OneByte(0);
  }

  lemma OneByte(a: nat)
    ensures LittleEndian(a, 0, 0, 0) == a
  {
  }

  /** A needle does not occur where one of its bytes differs. */
  lemma NotAt(s: Bytes, needle: Bytes, k: nat, i: nat)
    requires i < |needle| && (k + i < |s| ==> s[k + i] != needle[i])
    ensures !OccursAt(s, needle, k)
  {
    if k + |needle| <= |s| {
      assert s[k..k + |needle|][i] == s[k + i];
    }
  }

  /** The header, a root of sevens, and a tree of two. */
  function ExampleScript(): Bytes { HEADER + Repeat(7, 32) + End(2) }

  lemma ExampleFacts()
    ensures var s := ExampleScript();
            && |s| == 44 && OccursAt(s, HEADER, 0) && OccursAt(s, Repeat(7, 32), 4) && s[36..44] == End(2)
            && (forall k :: OccursAt(s, HEADER, k) ==> k == 0) && (forall k :: 0 <= k < 4 ==> !OccursAt(s, Repeat(7, 32), k))
  {
    var s := ExampleScript();
    assert s[0..4] == HEADER && s[4..36] == Repeat(7, 32) && s[36..44] == End(2);
    forall k: nat | k != 0
      ensures !OccursAt(s, HEADER, k)
    {
      NotAt(s, HEADER, k, 0);
    }
    forall k: nat | k < 4
      ensures !OccursAt(s, Repeat(7, 32), k)
    {
      NotAt(s, Repeat(7, 32), k, 0);
    }
  }

  /** A proof with a branch of one step that is accepted for chain 98 and whose hashing has no collision. */
  lemma AcceptedExample() returns (h: PairHash, p: AuxPow, a: Bytes)
    ensures (forall x, y :: |h(x, y)| == HASH_SIZE) && |a| == HASH_SIZE && OccursAt(p.script, HEADER, 0)
    ensures Check(h, p, a, 98, true) == Accepted && |p.vChainMerkleBranch| == 1 && [0xfa, 0xbe, 0x6d, 0x6d] <= p.script
    ensures NoCollision(h, Pairs(h, a, p.vChainMerkleBranch, p.nChainIndex), Pairs(h, a, p.vChainMerkleBranch, p.nChainIndex))
  {
    hide GetExpectedIndex, ExampleScript, Check, OccursAt, WordAt, End;
    var root, branch := Repeat(7, 32), [Repeat(2, 32)];
    h := (x: Bytes, y: Bytes) => Repeat(7, 32);
    a := Repeat(1, 32);
    p := AuxPow(0, 1, branch, 0, Repeat(3, 32), [], Repeat(3, 32), ExampleScript());
    ExampleFacts();
    assert branch[1..] == [];
    assert BranchRoot(h, a, branch, 0) == root && Reverse(root) == root;
    EndStates(p.script, 36, 2);
    ExpectedIndexExact(0, 98, 1);
    assert Pow2(1) == 2;
    AcceptedIff(h, p, a, 98, true, 0);
  }

  lemma HeaderlessAccepted(h: PairHash, p: AuxPow, hash: Bytes, pc: nat)
    requires p.nIndex == 0 && p.parentChainId != 98 && p.vChainMerkleBranch == [] && p.nChainIndex == 0
    requires p.vMerkleBranch == [] && p.txHash == p.hashMerkleRoot && |hash| == HASH_SIZE && pc <= 20
    requires (forall k :: !OccursAt(p.script, HEADER, k)) && pc + 40 <= |p.script| && p.script[pc + 32..pc + 40] == End(1)
    requires OccursAt(p.script, Reverse(hash), pc) && forall k :: 0 <= k < pc ==> !OccursAt(p.script, Reverse(hash), k)
    ensures Check(h, p, hash, 98, true) == Accepted
  {
    hide GetExpectedIndex, Reverse, WordAt;
    EndStates(p.script, pc + 32, 1);
    ExpectedIndexExact(0, 98, 0);
    assert Pow2(0) == 1;
    assert Search(p.script, 0, Reverse(hash)) == pc;
    assert Search(p.script, 0, HEADER) == |p.script|;
  }

  /** Two roots that overlap: sevens at 0, and at 20 what stands there. */
  function OverlapScript(): Bytes { Repeat(7, 32) + End(1) + Repeat(9, 12) + End(1) }

  function SecondRoot(): Bytes { Repeat(7, 12) + End(1) + Repeat(9, 12) }

  lemma OverlapFacts()
    ensures var s := OverlapScript();
            && |s| == 60 && |SecondRoot()| == 32 && OccursAt(s, Repeat(7, 32), 0) && OccursAt(s, SecondRoot(), 20)
            && s[32..40] == End(1) && s[52..60] == End(1)
            && (forall k :: !OccursAt(s, HEADER, k)) && (forall k :: 0 <= k < 20 ==> !OccursAt(s, SecondRoot(), k))
  {
    var s := OverlapScript();
    assert s[0..32] == Repeat(7, 32) && s[20..52] == SecondRoot() && s[32..40] == End(1) && s[52..60] == End(1);
    forall k: nat
      ensures !OccursAt(s, HEADER, k)
    {
      NotAt(s, HEADER, k, 0);
    }
    forall k: nat | k < 20
      ensures !OccursAt(s, SecondRoot(), k)
    {
      NotAt(s, SecondRoot(), k, 12);
    }
  }

  /** A script without the header that proves two different blocks: one root starts at 0 and another, overlapping it, at 20. */
  lemma HeaderlessExample() returns (h: PairHash, p: AuxPow, a: Bytes, q: AuxPow, b: Bytes)
    ensures (forall x, y :: |h(x, y)| == HASH_SIZE) && |a| == |b| == HASH_SIZE && p.script == q.script
    ensures forall k :: !OccursAt(p.script, HEADER, k)
    ensures Check(h, p, a, 98, true) == Accepted && Check(h, q, b, 98, true) == Accepted && a != b
  {
    hide Check, OccursAt, OverlapScript, End;
    h := (x: Bytes, y: Bytes) => Repeat(0, 32);
    a, b := Reverse(Repeat(7, 32)), Reverse(SecondRoot());
    p := AuxPow(0, 1, [], 0, Repeat(3, 32), [], Repeat(3, 32), OverlapScript());
    q := p;
    OverlapFacts();
    ReverseTwice(Repeat(7, 32));
    ReverseTwice(SecondRoot());
    HeaderlessAccepted(h, p, a, 0);
    HeaderlessAccepted(h, q, b, 20);
    assert a[0] == 7 && b[0] == 9;
  }

  // ---------- the minimal proof ----------

  /** The script of a minimal proof: a push of the reversed block hash, the size one and the nonce zero. */
  function InitScript(hash: Bytes): Bytes { [0x28] + Reverse(hash) + End(1) }

  /**
   A proof for a block by a fake parent block with nothing but a coinbase, whose hash is then the
   merkle root; `txHash` is the hash of that coinbase and the parent's chain id is zero.
   */
  function InitAuxPow(hash: Bytes, txHash: Bytes): AuxPow { AuxPow(0, 0, [], 0, txHash, [], txHash, InitScript(hash)) }

  /**
   The check accepts the minimal proof of a block exactly if its chain id is not that of the parent,
   the hash does not hold the merged-mining header, and it is not 32 times the byte of the push.
   */
  lemma InitAccepted(h: PairHash, hash: Bytes, txHash: Bytes, nChainId: int, strictChainId: bool)
    requires |hash| == HASH_SIZE && forall x, y :: |h(x, y)| == HASH_SIZE
    ensures Check(h, InitAuxPow(hash, txHash), hash, nChainId, strictChainId) == Accepted <==>
            !(strictChainId && nChainId == 0) && hash != Repeat(0x28, 32) && forall k :: !OccursAt(InitScript(hash), HEADER, k)
  {
    hide OccursAt, WordAt, GetExpectedIndex, Reverse;
    var p, s, root := InitAuxPow(hash, txHash), InitScript(hash), Reverse(hash);
    InitPlaces(hash);
    EndStates(s, 33, 1);
    assert GetExpectedIndex(0, nChainId, 0) == 0 && Pow2(0) == 1;
    if forall k :: !OccursAt(s, HEADER, k) {
      HeaderlessAcceptedIff(h, p, hash, nChainId, strictChainId);
      if hash == Repeat(0x28, 32) {
        InitWrongTail(hash);
        forall at: nat | RootFirstAt(h, p, hash, at)
          ensures at == 0
        {
        }
      } else {
        assert RootFirstAt(h, p, hash, 1);
        assert TailStates(p, 1 + HASH_SIZE, nChainId);
      }
    } else {
      var at: nat :| OccursAt(s, HEADER, at);
      if Check(h, p, hash, nChainId, strictChainId) == Accepted {
        AcceptedIff(h, p, hash, nChainId, strictChainId, at);
      }
    }
  }

  /** The root stands after the push; it stands before only if it repeats the byte of the push. */
  lemma InitPlaces(hash: Bytes)
    requires |hash| == HASH_SIZE
    ensures var s := InitScript(hash); OccursAt(s, Reverse(hash), 1) && |s| == 41 && s[33..41] == End(1)
    ensures OccursAt(InitScript(hash), Reverse(hash), 0) <==> hash == Repeat(0x28, 32)
  {
    var s, r := InitScript(hash), Reverse(hash);
    assert s[1..33] == r;
    assert s[33..41] == End(1);
    if OccursAt(s, r, 0) {
      assert s[0..32] == r;
      forall i | 0 <= i < 32
        ensures r[i] == 0x28
      {
        RepeatsDown(s, r, i);
      }
      forall i | 0 <= i < 32
        ensures hash[i] == 0x28
      {
        assert r[31 - i] == hash[i];
      }
      assert hash == Repeat(0x28, 32);
    }
    if hash == Repeat(0x28, 32) {
      assert s[0..32] == r;
    }
  }

  lemma {:induction false} RepeatsDown(s: Bytes, r: Bytes, i: nat)
    requires |r| == 32 && |s| == 41 && s[0] == 0x28 && s[1..33] == r && s[0..32] == r && i < 32
    ensures r[i] == 0x28
  {
    assert s[0..32][i] == s[i];
    if i > 0 {
      RepeatsDown(s, r, i - 1);
      assert s[1..33][i - 1] == s[i];
    }
  }

  lemma InitWrongTail(hash: Bytes)
    requires hash == Repeat(0x28, 32)
    ensures |InitScript(hash)| == 41 && WordAt(InitScript(hash), 32) != 1
  {
    var s := InitScript(hash);
    assert s[32] == 0x28;
  }

  /** A block hash whose minimal proof is refused. */
  lemma InitRefused(h: PairHash, txHash: Bytes)
    requires forall x, y :: |h(x, y)| == HASH_SIZE
    ensures Check(h, InitAuxPow(Repeat(0x28, 32), txHash), Repeat(0x28, 32), 98, true) != Accepted
  {
    hide Check, OccursAt;
    InitAccepted(h, Repeat(0x28, 32), txHash, 98, true);
  }
}
