/**
 The merkle root of a list and the branch of one of its places: level by level, and as the code
 computes both in one pass with one hash kept for each level.
 */
module MerkleRoot {
  import opened Numbers

  // ---------- level by level ----------

  /** One level up: neighbours are hashed together, a last one without a neighbour with itself. */
  function Up<T>(h: (T, T) -> T, s: seq<T>): (u: seq<T>)
    ensures |u| == (|s| + 1) / 2
  {
    seq((|s| + 1) / 2, i requires 0 <= i < (|s| + 1) / 2 => h(s[2 * i], s[if 2 * i + 1 < |s| then 2 * i + 1 else 2 * i]))
  }

  function Root<T>(h: (T, T) -> T, s: seq<T>): T
    requires s != []
    decreases |s|
  {
    if |s| == 1 then s[0] else Root(h, Up(h, s))
  }

  /** The neighbour of a place, or the place itself if it has none. */
  function Sibling<T>(s: seq<T>, pos: nat): T
    requires pos < |s|
  {
    s[if pos % 2 == 1 then pos - 1 else if pos + 1 < |s| then pos + 1 else pos]
  }

  function Branch<T>(h: (T, T) -> T, s: seq<T>, pos: nat): seq<T>
    requires pos < |s|
    decreases |s|
  {
    if |s| == 1 then [] else [Sibling(s, pos)] + Branch(h, Up(h, s), pos / 2)
  }

  // ---------- levels by number ----------

  function Level<T>(h: (T, T) -> T, s: seq<T>, k: nat): seq<T> { if k == 0 then s else Up(h, Level(h, s, k - 1)) }

  /** A level has as many nodes as it takes to cover the list. */
  lemma {:induction false} LevelSize<T>(h: (T, T) -> T, s: seq<T>, k: nat)
    requires s != []
    ensures |s| <= |Level(h, s, k)| * Pow2(k) < |s| + Pow2(k) && Level(h, s, k) != []
  {
    hide Up;
    if k > 0 {
      LevelSize(h, s, k - 1);
      HalfUp(|s|, |Level(h, s, k - 1)|, Pow2(k - 1));
    } else {
      assert |s| * Pow2(0) == |s|;
    }
  }

  lemma HalfUp(n: nat, a: nat, p: nat)
    requires 0 < n <= a * p < n + p
    ensures n <= (a + 1) / 2 * (2 * p) < n + 2 * p && a > 0
  {
    DivMod(a + 1, 2);
    var b := (a + 1) / 2;
    MulAssoc(b, 2, p);
    if (a + 1) % 2 == 0 {
      MulAdd(a, 1, p);
    }
  }

  lemma LevelAt<T>(h: (T, T) -> T, s: seq<T>, k: nat, i: nat)
    requires i < |Level(h, s, k + 1)|
    ensures var l := Level(h, s, k);
            2 * i < |l| && Level(h, s, k + 1)[i] == h(l[2 * i], l[if 2 * i + 1 < |l| then 2 * i + 1 else 2 * i])
  {
    var l := Level(h, s, k);
    assert Level(h, s, k + 1) == Up(h, l);
    hide Level;
    DivMod(|l| + 1, 2);
  }

  lemma {:induction false} LevelUp<T>(h: (T, T) -> T, s: seq<T>, k: nat)
    ensures Level(h, Up(h, s), k) == Level(h, s, k + 1)
  {
    if k > 0 {
      LevelUp(h, s, k - 1);
    }
  }

  /** The branch up to a level, by the numbers of the levels. */
  ghost function Siblings<T>(h: (T, T) -> T, s: seq<T>, pos: nat, k: nat): seq<T>
    requires pos < |s|
  {
    seq(k, i requires 0 <= i < k => SiblingOn(h, s, pos, i))
  }

  ghost function SiblingOn<T>(h: (T, T) -> T, s: seq<T>, pos: nat, k: nat): T
    requires pos < |s|
  {
    PlaceOn(h, s, pos, k);
    Sibling(Level(h, s, k), pos / Pow2(k))
  }

  lemma PlaceOn<T>(h: (T, T) -> T, s: seq<T>, pos: nat, k: nat)
    requires pos < |s|
    ensures 0 <= pos / Pow2(k) < |Level(h, s, k)|
  {
    hide Level, Pow2;
    LevelSize(h, s, k);
    QuotientBelow(pos, |Level(h, s, k)|, Pow2(k));
  }

  lemma QuotientBelow(x: nat, n: nat, p: nat)
    requires p > 0 && x < n * p
    ensures 0 <= x / p < n
  {
    DivMod(x, p);
    var q := x / p;
    if q >= n {
      MulMono(n, q, p);
    }
  }

  /** The first level with a single node holds the root, and the siblings below it are the branch. */
  lemma {:induction false} Top<T>(h: (T, T) -> T, s: seq<T>, pos: nat, k: nat)
    requires pos < |s| && |Level(h, s, k)| == 1 && (k > 0 ==> |Level(h, s, k - 1)| > 1)
    ensures Root(h, s) == Level(h, s, k)[0] && Branch(h, s, pos) == Siblings(h, s, pos, k)
    decreases k
  {
    hide Up, Siblings;
    NoSiblings(h, s, pos);
    if k > 0 {
      var u := Up(h, s);
      FirstBig(h, s, k - 1);
      LevelUp(h, s, k - 1);
      if k > 1 {
        LevelUp(h, s, k - 2);
      }
      DivMod(pos, 2);
      Top(h, u, pos / 2, k - 1);
      SiblingsUp(h, s, pos, k);
    }
  }

  lemma NoSiblings<T>(h: (T, T) -> T, s: seq<T>, pos: nat)
    requires pos < |s|
    ensures Siblings(h, s, pos, 0) == []
  {
  }

  lemma SiblingsUp<T>(h: (T, T) -> T, s: seq<T>, pos: nat, k: nat)
    requires pos < |s| && k > 0 && pos / 2 < |Up(h, s)|
    ensures Siblings(h, s, pos, k) == [Sibling(s, pos)] + Siblings(h, Up(h, s), pos / 2, k - 1)
  {
    hide Up, Sibling, Level, SiblingOn;
    var u := Up(h, s);
    var a, b := Siblings(h, s, pos, k), Siblings(h, u, pos / 2, k - 1);
    forall i | 0 <= i < k - 1
      ensures a[i + 1] == b[i]
    {
      SiblingUp(h, s, pos, i);
    }
    FirstSibling(h, s, pos, k);
    assert a == [a[0]] + b;
  }

  lemma SiblingUp<T>(h: (T, T) -> T, s: seq<T>, pos: nat, i: nat)
    requires pos < |s| && pos / 2 < |Up(h, s)|
    ensures SiblingOn(h, s, pos, i + 1) == SiblingOn(h, Up(h, s), pos / 2, i)
  {
    hide Up, Sibling, Level;
    LevelUp(h, s, i);
    DivDiv(pos, 2, Pow2(i));
    PlaceOn(h, s, pos, i + 1);
  }

  lemma FirstSibling<T>(h: (T, T) -> T, s: seq<T>, pos: nat, k: nat)
    requires pos < |s| && k > 0
    ensures Siblings(h, s, pos, k)[0] == Sibling(s, pos)
  {
    assert Pow2(0) == 1 && pos / 1 == pos;
  }

  lemma {:induction false} FirstBig<T>(h: (T, T) -> T, s: seq<T>, k: nat)
    requires |Level(h, s, k)| > 1
    ensures |s| > 1
  {
    if k > 0 {
      FirstBig(h, s, k - 1);
    }
  }

  // ---------- branches prove places ----------

  /** Hashing a place with the hashes of a branch, on the side that the bits of its number say. */
  function Climbed<T>(h: (T, T) -> T, x: T, branch: seq<T>, pos: nat): T
    decreases |branch|
  {
    if branch == [] then x
    else Climbed(h, if pos % 2 == 1 then h(branch[0], x) else h(x, branch[0]), branch[1..], pos / 2)
  }

  /** The branch of a place leads from it to the root. */
  lemma {:induction false} BranchProves<T>(h: (T, T) -> T, s: seq<T>, pos: nat)
    requires pos < |s|
    ensures Climbed(h, s[pos], Branch(h, s, pos), pos) == Root(h, s)
    decreases |s|
  {
    hide Up, Sibling;
    if |s| > 1 {
      UpAt(h, s, pos);
      BranchProves(h, Up(h, s), pos / 2);
      assert Branch(h, s, pos)[1..] == Branch(h, Up(h, s), pos / 2);
    }
  }

  lemma UpAt<T>(h: (T, T) -> T, s: seq<T>, pos: nat)
    requires pos < |s|
    ensures pos / 2 < |Up(h, s)|
    ensures Up(h, s)[pos / 2] == if pos % 2 == 1 then h(Sibling(s, pos), s[pos]) else h(s[pos], Sibling(s, pos))
  {
    var i, r := pos / 2, pos % 2;
    DivMod(pos, 2);
    DivMod(|s| + 1, 2);
    assert pos == 2 * i + r;
  }

  // ---------- bits of the count ----------

  lemma Before(c: nat, k: nat)
    requires c > 0
    ensures c % Pow2(k) == 0 ==> (c - 1) / Pow2(k) == c / Pow2(k) - 1 && c / Pow2(k) > 0
    ensures c % Pow2(k) != 0 ==> (c - 1) / Pow2(k) == c / Pow2(k)
  {
    var p := Pow2(k);
    DivMod(c, p);
    if c % p == 0 {
      MulAdd(c / p - 1, 1, p);
      DivUnique(c - 1, c / p - 1, p, p - 1);
    } else {
      DivUnique(c - 1, c / p, p, c % p - 1);
    }
  }

  lemma Halved(c: nat, k: nat)
    ensures c / Pow2(k + 1) == c / Pow2(k) / 2
    ensures c % Pow2(k + 1) == 0 <==> c % Pow2(k) == 0 && c / Pow2(k) % 2 == 0
  {
    var p := Pow2(k);
    DivDiv(c, p, 2);
    DivMod(c, p);
    DivMod(c / p, 2);
    var q, r := c / p / 2, c / p % 2;
    assert c == (q * 2 + r) * p + c % p;
    MulAdd(q * 2, r, p);
    MulAssoc(q, 2, p);
    MulMono(r, 1, p);
    DivUnique(c, q, 2 * p, r * p + c % p);
  }

  /** Below the lowest one bit all bits are zero, and above it the number is no multiple. */
  lemma {:induction false} LowBits(c: nat, level: nat, k: nat)
    requires c % Pow2(level) == 0
    ensures k < level ==> c / Pow2(k) % 2 == 0
    ensures k > level && c / Pow2(level) % 2 == 1 ==> c % Pow2(k) != 0
    decreases if k < level then level - k else k - level
  {
    if k < level {
      LowZero(c, level, k + 1);
      Halved(c, k);
    } else if k > level {
      Halved(c, k - 1);
      if k - 1 > level {
        LowBits(c, level, k - 1);
      }
    }
  }

  lemma {:induction false} LowZero(c: nat, level: nat, k: nat)
    requires c % Pow2(level) == 0 && k <= level
    ensures c % Pow2(k) == 0
    decreases level - k
  {
    if k < level {
      LowZero(c, level, k + 1);
      Halved(c, k);
    }
  }

  lemma LevelLimit(c: nat, level: nat)
    requires 0 < c <= Pow2(31) && c % Pow2(level) == 0
    ensures level <= 31
  {
    if level > 31 {
      Pow2Mono(32, level);
      DivMod(c, Pow2(level));
      MulMono(1, c / Pow2(level), Pow2(level));
    }
  }

  // ---------- the nodes kept in one pass ----------

  /** `x` is the node on level `k` that ends at leaf `c` or is the last to end before it. */
  ghost predicate Ends<T>(h: (T, T) -> T, s: seq<T>, c: nat, k: nat, x: T) {
    0 < c / Pow2(k) <= |Level(h, s, k)| && x == Level(h, s, k)[c / Pow2(k) - 1]
  }

  /** For each one bit of the count, the node of that size that ends there is kept. */
  ghost predicate InnerOk<T>(h: (T, T) -> T, s: seq<T>, inner: seq<T>, c: nat) {
    |inner| == 32 && forall k: nat :: k < 32 && c / Pow2(k) % 2 == 1 ==> Ends(h, s, c, k, inner[k])
  }

  /** Two neighbours are equal. */
  ghost predicate TwinsAt<T>(h: (T, T) -> T, s: seq<T>, k: nat, i: nat) {
    2 * i + 1 < |Level(h, s, k)| && Level(h, s, k)[2 * i] == Level(h, s, k)[2 * i + 1]
  }

  /** Two neighbours that cover 2^k of the first `c` leaves each are equal. */
  ghost predicate Doubled<T>(h: (T, T) -> T, s: seq<T>, c: nat) {
    exists k: nat, i: nat :: TwinsAt(h, s, k, i) && (2 * i + 2) * Pow2(k) <= c
  }

  /** Where the place `pos` is after `c` leaves: in the kept node on level `at`, with its branch up to there. */
  ghost predicate Tracked<T>(h: (T, T) -> T, s: seq<T>, c: nat, pos: nat, at: int, branch: seq<T>) {
    if pos < c && pos < |s| then 0 <= at < 32 && c / Pow2(at) % 2 == 1 && pos / Pow2(at) == c / Pow2(at) - 1 && branch == Siblings(h, s, pos, at)
    else at == -1 && branch == []
  }

  // ---------- taking up a leaf ----------

  /** The same while leaf `c` carries upwards: in the node in hand, or where it was. */
  ghost predicate Carried<T>(h: (T, T) -> T, s: seq<T>, c: nat, level: nat, pos: nat, inHand: bool, at: int, branch: seq<T>) {
    if inHand then pos < c && pos < |s| && pos / Pow2(level) == c / Pow2(level) - 1 && branch == Siblings(h, s, pos, level)
    else c > 0 && pos != c - 1 && Tracked(h, s, c - 1, pos, at, branch) && (pos < c ==> at >= level)
  }

  /** Twins found while leaf `c` carries upwards. */
  ghost predicate DoubledBelow<T>(h: (T, T) -> T, s: seq<T>, c: nat, level: nat) {
    exists k: nat, i: nat :: TwinsAt(h, s, k, i) && k < level && (2 * i + 2) * Pow2(k) == c
  }

  lemma CarryStart<T>(h: (T, T) -> T, s: seq<T>, c: nat, pos: nat, at: int, branch: seq<T>)
    requires c < |s| && Tracked(h, s, c, pos, at, branch)
    ensures Ends(h, s, c + 1, 0, s[c]) && (c + 1) % Pow2(0) == 0 && !DoubledBelow(h, s, c + 1, 0)
    ensures Carried(h, s, c + 1, 0, pos, c == pos, at, branch)
  {
    hide Pow2, Siblings, TwinsAt;
    ByOne(c + 1);
    ByOne(pos);
    if c == pos {
      NoSiblings(h, s, pos);
    }
  }

  lemma ByOne(x: nat)
    ensures x / Pow2(0) == x && x % Pow2(0) == 0
  {
  }

  /** One step up: the kept node and the one in hand make the node above. */
  lemma CarryStep<T>(h: (T, T) -> T, s: seq<T>, inner: seq<T>, c: nat, level: nat, x: T)
    requires 0 < c && level < 32 && c % Pow2(level) == 0 && c / Pow2(level) % 2 == 0
    requires Ends(h, s, c, level, x) && InnerOk(h, s, inner, c - 1)
    ensures Ends(h, s, c, level + 1, h(inner[level], x)) && c % Pow2(level + 1) == 0
    ensures var m := c / Pow2(level + 1);
            && 0 < m && c / Pow2(level) == 2 * m && 2 * m <= |Level(h, s, level)|
            && inner[level] == Level(h, s, level)[2 * m - 2] && x == Level(h, s, level)[2 * m - 1]
  {
    hide Pow2, Level;
    Before(c, level);
    Halved(c, level);
    var q, m := c / Pow2(level), c / Pow2(level + 1);
    DivMod(q, 2);
    OddBefore(q);
    assert Ends(h, s, c - 1, level, inner[level]);
    JoinAt(h, s, level, m - 1);
  }

  lemma OddBefore(q: nat)
    requires q > 0 && q % 2 == 0
    ensures (q - 1) % 2 == 1
  {
  }

  lemma JoinAt<T>(h: (T, T) -> T, s: seq<T>, k: nat, i: nat)
    requires 2 * i + 1 < |Level(h, s, k)|
    ensures i < |Level(h, s, k + 1)| && Level(h, s, k + 1)[i] == h(Level(h, s, k)[2 * i], Level(h, s, k)[2 * i + 1])
  {
    DivMod(|Level(h, s, k)| + 1, 2);
    LevelAt(h, s, k, i);
  }

  lemma CarryTwins<T>(h: (T, T) -> T, s: seq<T>, c: nat, level: nat, m: nat)
    requires c == m * Pow2(level + 1) && 0 < m && 2 * m <= |Level(h, s, level)|
    ensures DoubledBelow(h, s, c, level + 1) <==> DoubledBelow(h, s, c, level) || Level(h, s, level)[2 * m - 2] == Level(h, s, level)[2 * m - 1]
  {
    hide Level;
    MulAssoc(m, 2, Pow2(level));
    var i: nat := m - 1;
    if DoubledBelow(h, s, c, level + 1) && !DoubledBelow(h, s, c, level) {
      var k: nat, j: nat :| TwinsAt(h, s, k, j) && k < level + 1 && (2 * j + 2) * Pow2(k) == c;
      assert k == level;
      MulCancel(2 * j + 2, 2 * m, Pow2(level));
    }
    if Level(h, s, level)[2 * m - 2] == Level(h, s, level)[2 * m - 1] {
      assert TwinsAt(h, s, level, i) && (2 * i + 2) * Pow2(level) == c;
    }
  }

  lemma MulCancel(a: nat, b: nat, p: nat)
    requires p > 0 && a * p == b * p
    ensures a == b
  {
    if a < b {
      MulMono(a + 1, b, p);
      MulAdd(a, 1, p);
    } else if b < a {
      MulMono(b + 1, a, p);
      MulAdd(b, 1, p);
    }
  }

  lemma SiblingsNext<T>(h: (T, T) -> T, s: seq<T>, pos: nat, k: nat, x: T)
    requires pos < |s| && pos / Pow2(k) < |Level(h, s, k)| && x == Sibling(Level(h, s, k), pos / Pow2(k))
    ensures Siblings(h, s, pos, k) + [x] == Siblings(h, s, pos, k + 1)
  {
    hide Level, Sibling, Pow2;
  }

  /** The place moves up with its node; its branch grows by the other of the two. */
  lemma CarryPlace<T>(h: (T, T) -> T, s: seq<T>, c: nat, level: nat, m: nat, pos: nat, inHand: bool, at: int, branch: seq<T>)
    requires 0 < c && c % Pow2(level) == 0 && c / Pow2(level) == 2 * m && 0 < m && 2 * m <= |Level(h, s, level)|
    requires Carried(h, s, c, level, pos, inHand, at, branch)
    ensures inHand ==> Carried(h, s, c, level + 1, pos, true, at, branch + [Level(h, s, level)[2 * m - 2]])
    ensures !inHand && at == level ==> Carried(h, s, c, level + 1, pos, true, at, branch + [Level(h, s, level)[2 * m - 1]])
    ensures !inHand && at != level ==> Carried(h, s, c, level + 1, pos, false, at, branch)
  {
    hide Level, Pow2, Siblings;
    Before(c, level);
    Halved(c, level);
    Halved(pos, level);
    if inHand {
      SiblingsNext(h, s, pos, level, Level(h, s, level)[2 * m - 2]);
    } else if at == level {
      SiblingsNext(h, s, pos, level, Level(h, s, level)[2 * m - 1]);
    }
  }

  /** Storing the node in hand: all that is kept is right for the new count. */
  lemma CarryEnd<T>(h: (T, T) -> T, s: seq<T>, inner: seq<T>, c: nat, level: nat, x: T)
    requires 0 < c && level < 32 && c % Pow2(level) == 0 && c / Pow2(level) % 2 == 1
    requires Ends(h, s, c, level, x) && InnerOk(h, s, inner, c - 1)
    ensures InnerOk(h, s, inner[level := x], c)
  {
    hide Pow2, Level;
    forall k: nat | k < 32 && c / Pow2(k) % 2 == 1
      ensures Ends(h, s, c, k, inner[level := x][k])
    {
      LowBits(c, level, k);
      if k > level {
        Before(c, k);
        assert Ends(h, s, c - 1, k, inner[k]);
      }
    }
  }

  lemma PlaceEnd<T>(h: (T, T) -> T, s: seq<T>, c: nat, level: nat, pos: nat, inHand: bool, at: int, branch: seq<T>)
    requires 0 < c && level < 32 && c % Pow2(level) == 0 && c / Pow2(level) % 2 == 1
    requires Carried(h, s, c, level, pos, inHand, at, branch)
    ensures Tracked(h, s, c, pos, if inHand then level else at, branch)
  {
    hide Pow2, Level, Siblings;
    if !inHand && pos < c && pos < |s| {
      Before(c, level);
      OddApart(c / Pow2(level));
      LowBits(c, level, at);
      Before(c, at);
    }
  }

  lemma OddApart(q: nat)
    requires q % 2 == 1
    ensures (q - 1) % 2 == 0
  {
  }

  lemma TwinsEnd<T>(h: (T, T) -> T, s: seq<T>, c: nat, level: nat)
    requires 0 < c && c % Pow2(level) == 0 && c / Pow2(level) % 2 == 1
    ensures Doubled(h, s, c) <==> Doubled(h, s, c - 1) || DoubledBelow(h, s, c, level)
  {
    hide Pow2, Level, TwinsAt;
    if Doubled(h, s, c) && !Doubled(h, s, c - 1) {
      var k: nat, i: nat :| TwinsAt(h, s, k, i) && (2 * i + 2) * Pow2(k) <= c;
      assert (2 * i + 2) * Pow2(k) == c;
      EvenMultiple(c, i, k);
      LowBits(c, level, k + 1);
      if k == level {
        Halved(c, level);
      }
    }
  }

  lemma EvenMultiple(c: nat, i: nat, k: nat)
    requires c == (2 * i + 2) * Pow2(k)
    ensures c % Pow2(k + 1) == 0
  {
    MulAssoc(i + 1, 2, Pow2(k));
    DivUnique(c, i + 1, Pow2(k + 1), 0);
  }

  // ---------- the last sweep ----------

  /** The node in hand is the last of its level, and the count is what the level covers. */
  ghost predicate Sweeping<T>(h: (T, T) -> T, s: seq<T>, count: nat, level: nat, x: T) {
    var l := Level(h, s, level);
    && l != [] && count == |l| * Pow2(level) && x == l[|l| - 1] && (level > 0 ==> |Level(h, s, level - 1)| > 1)
    && (|s| % Pow2(level) == 0 ==> |s| / Pow2(level) % 2 == 1)
  }

  ghost predicate SweptPlace<T>(h: (T, T) -> T, s: seq<T>, level: nat, pos: nat, inHand: bool, at: int, branch: seq<T>) {
    if pos >= |s| then !inHand && at == -1 && branch == []
    else if inHand then pos / Pow2(level) == |Level(h, s, level)| - 1 && branch == Siblings(h, s, pos, level)
    else Tracked(h, s, |s|, pos, at, branch) && at >= level && (|s| % Pow2(level) != 0 || at > level)
  }

  /** How many nodes a level has: one more than are complete, unless all are. */
  lemma LevelCount<T>(h: (T, T) -> T, s: seq<T>, k: nat)
    requires s != []
    ensures |Level(h, s, k)| == |s| / Pow2(k) + if |s| % Pow2(k) == 0 then 0 else 1
  {
    LevelSize(h, s, k);
    var n, p, a := |s|, Pow2(k), |Level(h, s, k)|;
    DivMod(n, p);
    if n % p == 0 {
      DivUnique(n, a, p, n - a * p) by { MulAdd(a, 1, p); Multiple(n, a, p); }
    } else {
      MulAdd(a - 1, 1, p);
      DivUnique(n, a - 1, p, n - (a - 1) * p) by { NoMultiple(n, a, p); }
    }
  }

  lemma Multiple(n: nat, a: nat, p: nat)
    requires p > 0 && n % p == 0 && n <= a * p < n + p
    ensures n == a * p
  {
    DivMod(n, p);
    var q := n / p;
    if q < a {
      MulMono(q + 1, a, p);
      MulAdd(q, 1, p);
    } else if q > a {
      MulMono(a + 1, q, p);
      MulAdd(a, 1, p);
    }
  }

  lemma NoMultiple(n: nat, a: nat, p: nat)
    requires p > 0 && n % p != 0 && n <= a * p < n + p
    ensures n < a * p
  {
    if n == a * p {
      DivUnique(n, a, p, 0);
    }
  }

  lemma SweepStart<T>(h: (T, T) -> T, s: seq<T>, inner: seq<T>, level: nat, pos: nat, at: int, branch: seq<T>)
    requires s != [] && level < 32 && |s| % Pow2(level) == 0 && |s| / Pow2(level) % 2 == 1
    requires InnerOk(h, s, inner, |s|) && Tracked(h, s, |s|, pos, at, branch)
    ensures Sweeping(h, s, |s|, level, inner[level]) && |Level(h, s, level)| % 2 == 1
    ensures SweptPlace(h, s, level, pos, at == level, at, branch)
  {
    hide Pow2, Level, Siblings;
    LevelCount(h, s, level);
    DivMod(|s|, Pow2(level));
    assert Ends(h, s, |s|, level, inner[level]);
    if level > 0 {
      LowZero(|s|, level, level - 1);
      LevelCount(h, s, level - 1);
      Halved(|s|, level - 1);
    }
    if pos < |s| && at < level {
      LowBits(|s|, level, at);
    }
  }

  /** A last node without a neighbour is hashed with itself. */
  lemma SweepDouble<T>(h: (T, T) -> T, s: seq<T>, count: nat, level: nat, x: T)
    requires Sweeping(h, s, count, level, x) && |Level(h, s, level)| % 2 == 1 && |Level(h, s, level)| > 1
    ensures Sweeping(h, s, count + Pow2(level), level + 1, h(x, x)) && |s| % Pow2(level + 1) != 0
    ensures 0 < |Level(h, s, level + 1)| < |Level(h, s, level)|
  {
    hide Pow2, Level;
    var a := |Level(h, s, level)|;
    var b := (a + 1) / 2;
    OddTwice(a);
    LevelAbove(h, s, level);
    LevelAt(h, s, level, b - 1);
    CountDoubles(a, b, level);
    NoLongerWhole(|s|, level);
  }

  lemma CountDoubles(a: nat, b: nat, level: nat)
    requires 2 * b == a + 1
    ensures a * Pow2(level) + Pow2(level) == b * Pow2(level + 1)
  {
    MulAdd(a, 1, Pow2(level));
    MulAssoc(b, 2, Pow2(level));
  }

  /** Above the lowest one bit of a number it is no multiple. */
  lemma NoLongerWhole(n: nat, level: nat)
    requires n % Pow2(level) == 0 ==> n / Pow2(level) % 2 == 1
    ensures n % Pow2(level + 1) != 0
  {
    hide Pow2;
    Halved(n, level);
  }

  lemma PlaceDouble<T>(h: (T, T) -> T, s: seq<T>, level: nat, x: T, pos: nat, inHand: bool, at: int, branch: seq<T>)
    requires |Level(h, s, level)| % 2 == 1 && x == Level(h, s, level)[|Level(h, s, level)| - 1]
    requires SweptPlace(h, s, level, pos, inHand, at, branch) && |s| % Pow2(level + 1) != 0
    ensures SweptPlace(h, s, level + 1, pos, inHand, at, if inHand then branch + [x] else branch)
  {
    hide Pow2, Siblings, Level;
    if pos < |s| {
      LevelAbove(h, s, level);
      OddTwice(|Level(h, s, level)|);
      if inHand {
        Halved(pos, level);
        SiblingsNext(h, s, pos, level, x);
      } else if at == level {
        LevelCount(h, s, level);
        OddNext(|s| / Pow2(level));
      }
    }
  }

  lemma OddNext(q: nat)
    requires q % 2 == 1
    ensures (q + 1) % 2 == 0
  {
  }

  lemma OddTwice(a: nat)
    requires a % 2 == 1
    ensures 2 * ((a + 1) / 2) == a + 1 && (a - 1) % 2 == 0 && (a - 1) / 2 == (a + 1) / 2 - 1
  {
  }

  lemma EvenTwice(a: nat)
    requires a % 2 == 0 && a > 0
    ensures (a + 1) / 2 == a / 2 && 2 * (a / 2) == a && (a - 1) % 2 == 1 && (a - 1) / 2 == a / 2 - 1 && (a - 2) / 2 == a / 2 - 1 && (a - 2) % 2 == 0
  {
  }

  lemma Doubling(k: nat)
    ensures Pow2(k + 1) == 2 * Pow2(k)
  {
  }

  lemma LevelAbove<T>(h: (T, T) -> T, s: seq<T>, k: nat)
    ensures |Level(h, s, k + 1)| == (|Level(h, s, k)| + 1) / 2
  {
  }

  /** A last node with a neighbour is hashed with that, which was kept. */
  lemma SweepJoin<T>(h: (T, T) -> T, s: seq<T>, inner: seq<T>, count: nat, level: nat, x: T)
    requires Sweeping(h, s, count, level, x) && |Level(h, s, level)| % 2 == 0 && |s| % Pow2(level) != 0 && level < 32
    requires InnerOk(h, s, inner, |s|)
    ensures SecondLast(Level(h, s, level), inner[level])
    ensures Sweeping(h, s, count, level + 1, h(inner[level], x)) && |s| % Pow2(level + 1) != 0
    ensures 0 < |Level(h, s, level + 1)| < |Level(h, s, level)|
  {
    hide Pow2, Level;
    var a := |Level(h, s, level)|;
    var b := a / 2;
    EvenTwice(a);
    LevelAbove(h, s, level);
    JoinAt(h, s, level, b - 1);
    LevelCount(h, s, level);
    assert Ends(h, s, |s|, level, inner[level]);
    CountHalves(a, b, level);
    NoLongerWhole(|s|, level);
  }

  ghost predicate SecondLast<T>(l: seq<T>, x: T) { |l| >= 2 && x == l[|l| - 2] }

  lemma CountHalves(a: nat, b: nat, level: nat)
    requires a == 2 * b
    ensures a * Pow2(level) == b * Pow2(level + 1)
  {
    MulAssoc(b, 2, Pow2(level));
  }

  lemma PlaceJoin<T>(h: (T, T) -> T, s: seq<T>, level: nat, y: T, pos: nat, inHand: bool, at: int, branch: seq<T>)
    requires SecondLast(Level(h, s, level), y) && |Level(h, s, level)| % 2 == 0 && |s| % Pow2(level) != 0 && |s| % Pow2(level + 1) != 0
    requires SweptPlace(h, s, level, pos, inHand, at, branch)
    ensures var l := Level(h, s, level);
            && (inHand ==> SweptPlace(h, s, level + 1, pos, true, at, branch + [y]))
            && (!inHand && at == level ==> SweptPlace(h, s, level + 1, pos, true, at, branch + [l[|l| - 1]]))
            && (!inHand && at != level ==> SweptPlace(h, s, level + 1, pos, false, at, branch))
  {
    hide Pow2, Siblings, Level;
    var l := Level(h, s, level);
    if pos < |s| {
      EvenTwice(|l|);
      LevelAbove(h, s, level);
      Halved(pos, level);
      if inHand {
        SiblingsNext(h, s, pos, level, y);
      } else if at == level {
        LevelCount(h, s, level);
        SiblingsNext(h, s, pos, level, l[|l| - 1]);
      }
    }
  }

  /** A level with an even number of nodes lies below the 32nd. */
  lemma SweepBelow<T>(h: (T, T) -> T, s: seq<T>, count: nat, level: nat)
    requires 0 < |s| <= Pow2(31) && count == |Level(h, s, level)| * Pow2(level) && |Level(h, s, level)| % 2 == 0
    ensures level < 31
  {
    hide Level, Pow2;
    LevelSize(h, s, level);
    MulMono(2, |Level(h, s, level)|, Pow2(level));
    if level >= 31 {
      Pow2Mono(31, level);
    }
  }

  lemma SweepEnd<T>(h: (T, T) -> T, s: seq<T>, count: nat, level: nat, x: T, pos: nat, inHand: bool, at: int, branch: seq<T>)
    requires s != [] && Sweeping(h, s, count, level, x) && |Level(h, s, level)| == 1 && SweptPlace(h, s, level, pos, inHand, at, branch)
    ensures x == Root(h, s) && branch == if pos < |s| then Branch(h, s, pos) else []
  {
    hide Pow2, Siblings, Level, Root, Branch;
    Top(h, s, 0, level);
    if pos < |s| {
      Top(h, s, pos, level);
      if !inHand {
        LevelCount(h, s, level);
        HigherZero(|s|, level, at);
      }
    }
  }

  /** A number of at most one 2^level has no one bit above, and at `level` only if it is 2^level. */
  lemma HigherZero(n: nat, level: nat, k: nat)
    requires level <= k && n / Pow2(level) + (if n % Pow2(level) == 0 then 0 else 1) == 1
    ensures n / Pow2(k) % 2 == 1 ==> k == level && n % Pow2(level) == 0
  {
    hide Pow2;
    DivMod(n, Pow2(level));
    assert n <= Pow2(level);
    if k > level {
      Pow2Strict(level, k);
      DivUnique(n, 0, Pow2(k), n);
    }
  }

  lemma Pow2Strict(a: nat, b: nat)
    requires a < b
    ensures Pow2(a) < Pow2(b)
  {
    Pow2Mono(a + 1, b);
  }

  lemma CountIs(a: nat, level: nat)
    ensures a * Pow2(level) / Pow2(level) == a && (a * Pow2(level) == Pow2(level) <==> a == 1)
  {
    DivUnique(a * Pow2(level), a, Pow2(level), 0);
    if a > 1 {
      MulMono(2, a, Pow2(level));
    }
  }

  // ---------- the computation ----------

  /**
   The root, whether two neighbours that cover whole powers of two are equal, and the branch of
   place `branchpos`, in one pass over the leaves.
   */
  method MerkleComputation<T(==)>(h: (T, T) -> T, leaves: seq<T>, branchpos: nat, zero: T) returns (root: T, mutated: bool, branch: seq<T>)
    requires |leaves| <= Pow2(31)
    ensures root == if leaves == [] then zero else Root(h, leaves)
    ensures mutated <==> Doubled(h, leaves, |leaves|)
    ensures branch == if branchpos < |leaves| then Branch(h, leaves, branchpos) else []
  {
    hide *;
    branch, mutated := [], false;
    if |leaves| == 0 {
      NoLeaves(h, leaves);
      return zero, mutated, branch;
    }
    var inner := new T[32](_ => leaves[0]);
    var count, matchlevel := 0, -1;
    PassStart(h, leaves, inner[..], branchpos);
    while count < |leaves|
      invariant count <= |leaves| && InnerOk(h, leaves, inner[..], count)
      invariant mutated <==> Doubled(h, leaves, count)
      invariant Tracked(h, leaves, count, branchpos, matchlevel, branch)
    {
      var x := leaves[count];
      var matchh := count == branchpos;
      CarryStart(h, leaves, count, branchpos, matchlevel, branch);
      count := count + 1;
      var level := 0;
      while count / Pow2(level) % 2 == 0
        invariant count % Pow2(level) == 0 && level <= 31 && Ends(h, leaves, count, level, x)
        invariant InnerOk(h, leaves, inner[..], count - 1)
        invariant mutated <==> Doubled(h, leaves, count - 1) || DoubledBelow(h, leaves, count, level)
        invariant Carried(h, leaves, count, level, branchpos, matchh, matchlevel, branch)
        decreases 32 - level
      {
        CarryStep(h, leaves, inner[..], count, level, x);
        ghost var m := count / Pow2(level + 1);
        CountOf(count, level + 1);
        CarryTwins(h, leaves, count, level, m);
        CarryPlace(h, leaves, count, level, m, branchpos, matchh, matchlevel, branch);
        LevelLimit(count, level + 1);
        if matchh {
          branch := branch + [inner[level]];
        } else if matchlevel == level {
          branch := branch + [x];
          matchh := true;
        }
        if inner[level] == x {
          mutated := true;
        }
        x := h(inner[level], x);
        level := level + 1;
      }
      CarryEnd(h, leaves, inner[..], count, level, x);
      PlaceEnd(h, leaves, count, level, branchpos, matchh, matchlevel, branch);
      TwinsEnd(h, leaves, count, level);
      inner[level] := x;
      if matchh {
        matchlevel := level;
      }
    }
    root, branch := Sweep(h, leaves, inner, branchpos, matchlevel, branch);
  }

  lemma NoLeaves<T>(h: (T, T) -> T, s: seq<T>)
    requires s == []
    ensures !Doubled(h, s, 0)
  {
    forall k: nat, i: nat | TwinsAt(h, s, k, i)
      ensures (2 * i + 2) * Pow2(k) > 0
    {
      MulMono(2, 2 * i + 2, Pow2(k));
    }
  }

  lemma PassStart<T>(h: (T, T) -> T, s: seq<T>, inner: seq<T>, pos: nat)
    requires |inner| == 32
    ensures InnerOk(h, s, inner, 0) && !Doubled(h, s, 0) && Tracked(h, s, 0, pos, -1, [])
  {
    hide Level, TwinsAt, Ends;
    forall k: nat
      ensures 0 / Pow2(k) == 0
    {
      DivUnique(0, 0, Pow2(k), 0);
    }
    forall k: nat, i: nat | TwinsAt(h, s, k, i)
      ensures (2 * i + 2) * Pow2(k) > 0
    {
      MulMono(2, 2 * i + 2, Pow2(k));
    }
  }

  lemma CountOf(c: nat, k: nat)
    requires c % Pow2(k) == 0
    ensures c == c / Pow2(k) * Pow2(k)
  {
    DivMod(c, Pow2(k));
  }

  method Sweep<T(==)>(h: (T, T) -> T, leaves: seq<T>, inner: array<T>, branchpos: nat, matchlevel: int, branch0: seq<T>)
    returns (root: T, branch: seq<T>)
    requires 0 < |leaves| <= Pow2(31) && inner.Length == 32 && InnerOk(h, leaves, inner[..], |leaves|)
    requires Tracked(h, leaves, |leaves|, branchpos, matchlevel, branch0)
    ensures root == Root(h, leaves) && branch == if branchpos < |leaves| then Branch(h, leaves, branchpos) else []
  {
    hide *;
    branch := branch0;
    var count: nat, level: nat := |leaves|, 0;
    ByOne(count);
    while count / Pow2(level) % 2 == 0
      invariant count == |leaves| && count % Pow2(level) == 0 && level <= 31
      decreases 32 - level
    {
      Halved(count, level);
      LevelLimit(count, level + 1);
      level := level + 1;
    }
    SweepStart(h, leaves, inner[..], level, branchpos, matchlevel, branch);
    root := inner[level];
    var matchh := matchlevel == level;
    Counted(h, leaves, count, level, root);
    while count != Pow2(level)
      invariant Sweeping(h, leaves, count, level, root) && |Level(h, leaves, level)| % 2 == 1
      invariant SweptPlace(h, leaves, level, branchpos, matchh, matchlevel, branch)
      decreases |Level(h, leaves, level)|
    {
      Counted(h, leaves, count, level, root);
      SweepDouble(h, leaves, count, level, root);
      LastOf(h, leaves, count, level, root);
      PlaceDouble(h, leaves, level, root, branchpos, matchh, matchlevel, branch);
      if matchh {
        branch := branch + [root];
      }
      root := h(root, root);
      count := count + Pow2(level);
      level := level + 1;
      Counted(h, leaves, count, level, root);
      ghost var bound := |Level(h, leaves, level)|;
      while count / Pow2(level) % 2 == 0
        invariant Sweeping(h, leaves, count, level, root) && |leaves| % Pow2(level) != 0
        invariant SweptPlace(h, leaves, level, branchpos, matchh, matchlevel, branch)
        invariant |Level(h, leaves, level)| <= bound && count / Pow2(level) == |Level(h, leaves, level)|
        decreases |Level(h, leaves, level)|
      {
        Counted(h, leaves, count, level, root);
        SweepBelow(h, leaves, count, level);
        SweepJoin(h, leaves, inner[..], count, level, root);
        LastOf(h, leaves, count, level, root);
        PlaceJoin(h, leaves, level, inner[level], branchpos, matchh, matchlevel, branch);
        if matchh {
          branch := branch + [inner[level]];
        } else if matchlevel == level {
          branch := branch + [root];
          matchh := true;
        }
        root := h(inner[level], root);
        level := level + 1;
        Counted(h, leaves, count, level, root);
      }
    }
    Counted(h, leaves, count, level, root);
    SweepEnd(h, leaves, count, level, root, branchpos, matchh, matchlevel, branch);
  }

  lemma LastOf<T>(h: (T, T) -> T, s: seq<T>, count: nat, level: nat, x: T)
    requires Sweeping(h, s, count, level, x)
    ensures Level(h, s, level) != [] && x == Level(h, s, level)[|Level(h, s, level)| - 1]
  {
  }

  lemma Counted<T>(h: (T, T) -> T, s: seq<T>, count: nat, level: nat, x: T)
    requires Sweeping(h, s, count, level, x)
    ensures count / Pow2(level) == |Level(h, s, level)| && count == |Level(h, s, level)| * Pow2(level)
    ensures count == Pow2(level) <==> |Level(h, s, level)| == 1
    ensures |Level(h, s, level)| > 0
  {
    hide Pow2, Level;
    CountIs(|Level(h, s, level)|, level);
  }

  // ---------- lists with one root ----------

  ghost predicate Injective<T(!new)>(h: (T, T) -> T) {
    forall a: T, b: T, c: T, d: T :: h(a, b) == h(c, d) ==> a == c && b == d
  }

  lemma Inject<T(!new)>(h: (T, T) -> T, a: T, b: T, c: T, d: T)
    requires Injective(h) && h(a, b) == h(c, d)
    ensures a == c && b == d
  {
  }

  /** A node that covers 2^k leaves of the list. */
  ghost predicate Whole<T>(s: seq<T>, k: nat, i: nat) { (i + 1) * Pow2(k) <= |s| }

  lemma WholeTwins<T>(h: (T, T) -> T, s: seq<T>, k: nat, i: nat)
    requires TwinsAt(h, s, k, i) && Whole(s, k, 2 * i + 1)
    ensures Doubled(h, s, |s|)
  {
    hide Pow2, TwinsAt;
  }

  lemma WholeHalves<T>(h: (T, T) -> T, s: seq<T>, k: nat, i: nat)
    requires s != [] && k > 0 && Whole(s, k, i)
    ensures Whole(s, k - 1, 2 * i) && Whole(s, k - 1, 2 * i + 1) && 2 * i + 1 < |Level(h, s, k - 1)|
  {
    hide Level;
    HalfPieces(i, Pow2(k - 1), |s|);
    LevelSize(h, s, k - 1);
    AtMost(2 * i + 2, |Level(h, s, k - 1)|, Pow2(k - 1), |s|);
  }

  lemma HalfPieces(i: nat, p: nat, n: nat)
    requires (i + 1) * (2 * p) <= n
    ensures (2 * i + 1) * p <= n && (2 * i + 2) * p <= n
  {
    MulAssoc(i + 1, 2, p);
    MulAdd(2 * i + 1, 1, p);
  }

  lemma AtMost(a: nat, b: nat, p: nat, n: nat)
    requires p > 0 && a * p <= n <= b * p
    ensures a <= b
  {
    if b < a {
      MulMono(b + 1, a, p);
      MulAdd(b, 1, p);
    }
  }

  /** A node with another after it is whole. */
  lemma NotLastWhole<T>(h: (T, T) -> T, s: seq<T>, k: nat, i: nat)
    requires s != [] && i + 1 < |Level(h, s, k)|
    ensures Whole(s, k, i)
  {
    hide Level;
    LevelSize(h, s, k);
    var n, p := |Level(h, s, k)|, Pow2(k);
    MulMono(i + 1, n - 1, p);
    MulAdd(n - 1, 1, p);
  }

  /** A whole node that equals one that is not whole has equal halves somewhere below. */
  lemma {:induction false} WholeLikePart<T(!new)>(h: (T, T) -> T, s: seq<T>, k: nat, i: nat, j: nat)
    requires Injective(h) && s != [] && i < |Level(h, s, k)| && j < |Level(h, s, k)|
    requires Whole(s, k, i) && !Whole(s, k, j) && Level(h, s, k)[i] == Level(h, s, k)[j]
    ensures Doubled(h, s, |s|)
    decreases k
  {
    hide Injective, Level, Doubled, Whole;
    if k == 0 {
      LeafWhole(h, s, j);
    } else {
      var l := Level(h, s, k - 1);
      WholeHalves(h, s, k, i);
      LevelAt(h, s, k - 1, i);
      LevelAt(h, s, k - 1, j);
      var q := if 2 * j + 1 < |l| then 2 * j + 1 else 2 * j;
      Inject(h, l[2 * i], l[2 * i + 1], l[2 * j], l[q]);
      if q == 2 * j {
        assert TwinsAt(h, s, k - 1, i);
        WholeTwins(h, s, k - 1, i);
      } else {
        PartHalf(s, k, j);
        WholeLikePart(h, s, k - 1, 2 * i + 1, q);
      }
    }
  }

  lemma LeafWhole<T>(h: (T, T) -> T, s: seq<T>, j: nat)
    requires j < |Level(h, s, 0)|
    ensures Whole(s, 0, j)
  {
    assert (j + 1) * Pow2(0) == j + 1;
  }

  lemma PartHalf<T>(s: seq<T>, k: nat, j: nat)
    requires k > 0 && !Whole(s, k, j)
    ensures !Whole(s, k - 1, 2 * j + 1)
  {
    MulAssoc(j + 1, 2, Pow2(k - 1));
  }

  /** Levels that agree one step up agree, or one of them is the other with its last node doubled. */
  lemma Below<T(!new)>(h: (T, T) -> T, a: seq<T>, b: seq<T>)
    requires Injective(h) && Up(h, a) == Up(h, b) && |a| <= |b| && a != []
    ensures a == b || (|b| % 2 == 0 && |a| == |b| - 1 && a == b[..|a|] && b[|b| - 1] == b[|b| - 2])
  {
    hide Injective;
    var u := |Up(h, a)|;
    DivMod(|a| + 1, 2);
    DivMod(|b| + 1, 2);
    assert |a| == |b| || (|a| == 2 * u - 1 && |b| == 2 * u);
    forall i | 0 <= i < u
      ensures 2 * i < |a| && a[2 * i] == b[2 * i]
      ensures 2 * i + 1 < |a| ==> a[2 * i + 1] == b[2 * i + 1]
      ensures 2 * i + 1 == |a| < |b| ==> b[2 * i] == b[2 * i + 1]
    {
      assert Up(h, a)[i] == Up(h, b)[i];
      Inject(h, a[2 * i], a[if 2 * i + 1 < |a| then 2 * i + 1 else 2 * i], b[2 * i], b[if 2 * i + 1 < |b| then 2 * i + 1 else 2 * i]);
    }
    forall n | 0 <= n < |a|
      ensures a[n] == b[n]
    {
      DivMod(n, 2);
      assert n == 2 * (n / 2) || n == 2 * (n / 2) + 1;
    }
    if |a| < |b| {
      assert 2 * (u - 1) + 1 == |a|;
      EvenIs(|b|, u);
    }
  }

  lemma EvenIs(n: nat, u: nat)
    requires n == 2 * u
    ensures n % 2 == 0
  {
  }

  /** A level whose last node repeats the one before it betrays a doubled list. */
  lemma LastTwice<T(!new)>(h: (T, T) -> T, s: seq<T>, k: nat)
    requires Injective(h) && s != [] && |Level(h, s, k)| >= 2 && |Level(h, s, k)| % 2 == 0
    requires Level(h, s, k)[|Level(h, s, k)| - 1] == Level(h, s, k)[|Level(h, s, k)| - 2]
    ensures Doubled(h, s, |s|)
  {
    hide Injective, Doubled, Level, Whole;
    var l := Level(h, s, k);
    var i := |l| / 2 - 1;
    DivMod(|l|, 2);
    assert 2 * i + 2 == |l|;
    NotLastWhole(h, s, k, 2 * i);
    if Whole(s, k, 2 * i + 1) {
      assert TwinsAt(h, s, k, i);
      WholeTwins(h, s, k, i);
    } else {
      WholeLikePart(h, s, k, 2 * i, 2 * i + 1);
    }
  }

  /**
   Two lists with as many levels and one root are the same, unless the flag that the computation
   returns betrays one of them.
   */
  lemma {:induction false} OneRoot<T(!new)>(h: (T, T) -> T, a: seq<T>, b: seq<T>, k: nat)
    requires Injective(h) && a != [] && b != [] && Level(h, a, k) == Level(h, b, k)
    ensures a == b || Doubled(h, a, |a|) || Doubled(h, b, |b|)
    decreases k
  {
    hide Injective, Doubled, Up;
    if k > 0 {
      var l, m := Level(h, a, k - 1), Level(h, b, k - 1);
      LevelSize(h, a, k - 1);
      LevelSize(h, b, k - 1);
      if l == m {
        OneRoot(h, a, b, k - 1);
      } else if |l| <= |m| {
        Below(h, l, m);
        LastTwice(h, b, k - 1);
      } else {
        Below(h, m, l);
        LastTwice(h, a, k - 1);
      }
    }
  }

  /** Six leaves, and the same six with the last two repeated, have one root; the repetition is betrayed. */
  lemma SixAndEight<T>(h: (T, T) -> T, s: seq<T>)
    requires |s| == 6
    ensures Root(h, s) == Root(h, s + s[4..]) && Doubled(h, s + s[4..], 8)
  {
    var t := s + s[4..];
    var u, v := Up(h, s), Up(h, t);
    assert u == [h(s[0], s[1]), h(s[2], s[3]), h(s[4], s[5])];
    assert v == [h(s[0], s[1]), h(s[2], s[3]), h(s[4], s[5]), h(s[4], s[5])];
    assert Up(h, u) == Up(h, v);
    assert Level(h, t, 1) == v;
    assert TwinsAt(h, t, 1, 1) && Pow2(1) == 2;
  }
}
