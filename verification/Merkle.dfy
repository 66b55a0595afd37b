/** The hash tree and the rolling hash over event digests (`chain.rs`), for any 32-byte hash function. */
module Merkle {
  import opened Common
  import Radix

  type Digest = s: seq<byte> | |s| == 32 witness seq(32, i => 0)

  type Hasher = seq<byte> -> Digest

  /** `[0u8; 32]`. */
  function Zeros(): Digest { seq(32, i => 0) }

  /** `update(left)` then `update(right)`. */
  function HashInput(left: Digest, right: Digest): seq<byte> {
    var l: seq<byte> := left;
    l + right
  }

  // ---------- Level by level ----------

  /** One pass over a level: pairs hashed, an odd last node paired with itself. */
  function NextLevel(sha: Hasher, level: seq<Digest>): (r: seq<Digest>)
    ensures |r| == (|level| + 1) / 2
  {
    if |level| == 0 then []
    else if |level| == 1 then [sha(HashInput(level[0], level[0]))]
    else [sha(HashInput(level[0], level[1]))] + NextLevel(sha, level[2..])
  }

  function Root(sha: Hasher, level: seq<Digest>): Digest
    requires level != []
    decreases |level|
  {
    if |level| == 1 then level[0] else Root(sha, NextLevel(sha, level))
  }

  /** The `while level.len() > 1` loop of `merkle_root`. */
  lemma RootStep(sha: Hasher, level: seq<Digest>)
    requires level != []
    ensures Root(sha, level) == if |level| == 1 then level[0] else Root(sha, NextLevel(sha, level))
  {
    hide NextLevel;
  }

  method RootLoop(sha: Hasher, leaves: seq<Digest>) returns (root: Digest)
    requires leaves != []
    ensures root == Root(sha, leaves)
  {
    hide Root, NextLevel;
    var level := leaves;
    while |level| > 1
      invariant level != [] && Root(sha, level) == Root(sha, leaves)
      decreases |level|
    {
      RootStep(sha, level);
      if |level| % 2 == 1 {
        PadLevel(sha, level);
        level := level + [level[|level| - 1]];
      }
      var next := HashPairs(sha, level);
      level := next;
    }
    RootStep(sha, level);
    root := level[0];
  }

  lemma {:induction false} PadLevel(sha: Hasher, level: seq<Digest>)
    requires |level| % 2 == 1
    ensures NextLevel(sha, level + [level[|level| - 1]]) == NextLevel(sha, level)
    decreases |level|
  {
    if |level| > 1 {
      var rest, last := level[2..], level[|level| - 1];
      PadLevel(sha, rest);
      assert (level + [last])[2..] == rest + [rest[|rest| - 1]];
    }
  }

  /** The inner `chunks_exact(2)` loop. */
  method HashPairs(sha: Hasher, level: seq<Digest>) returns (next: seq<Digest>)
    requires |level| % 2 == 0
    ensures next == NextLevel(sha, level)
  {
    hide NextLevel;
    next := [];
    var i := 0;
    assert level[0..] == level;
    while i < |level|
      invariant 0 <= i <= |level| && i % 2 == 0
      invariant next + NextLevel(sha, level[i..]) == NextLevel(sha, level)
    {
      PairStep(sha, level, i);
      var node := sha(HashInput(level[i], level[i + 1]));
      assert next + ([node] + NextLevel(sha, level[i + 2..])) == next + [node] + NextLevel(sha, level[i + 2..]);
      next := next + [node];
      i := i + 2;
    }
    assert |NextLevel(sha, level[i..])| == 0 && next + [] == next;
  }

  lemma PairStep(sha: Hasher, level: seq<Digest>, i: nat)
    requires i + 1 < |level|
    ensures NextLevel(sha, level[i..]) == [sha(HashInput(level[i], level[i + 1]))] + NextLevel(sha, level[i + 2..])
  {
    assert level[i..][2..] == level[i + 2..];
  }

  /** A node is the hash of the 64 bytes of its two children, the left one first. */
  lemma RootOfTwo(sha: Hasher, a: seq<byte>, b: seq<byte>)
    requires |a| == |b| == 32
    ensures Root(sha, [a, b]) == sha(a + b)
  {
    var level: seq<Digest> := [a, b];
    assert level[2..] == [];
    assert NextLevel(sha, level) == [sha(HashInput(a, b))];
  }

  // ---------- The same root from the top down ----------

  function Pow2(d: nat): (r: nat)
    ensures r >= 1
  {
    Radix.PowPositive(2, d);
    Radix.Pow(2, d)
  }

  lemma Halves(d: nat)
    ensures Pow2(0) == 1
    ensures d > 0 ==> Pow2(d) == 2 * Pow2(d - 1)
  {
  }

  /** Levels above `n` leaves. */
  function Height(n: nat): nat { if n <= 1 then 0 else 1 + Height((n + 1) / 2) }

  /** A tree of depth `d`: the left half is full, and a missing right half repeats the left. */
  function Tree(sha: Hasher, leaves: seq<Digest>, d: nat): Digest
    requires 1 <= |leaves| <= Pow2(d)
    decreases d
  {
    if d == 0 then leaves[0]
    else
      var half := Pow2(d - 1);
      if |leaves| <= half then var t := Tree(sha, leaves, d - 1); sha(HashInput(t, t))
      else sha(HashInput(Tree(sha, leaves[..half], d - 1), Tree(sha, leaves[half..], d - 1)))
  }

  lemma {:induction false} HeightFits(n: nat)
    requires n >= 1
    ensures n <= Pow2(Height(n))
  {
    if n > 1 {
      HeightFits((n + 1) / 2);
    }
  }

  lemma {:induction false} LevelSplits(sha: Hasher, level: seq<Digest>, k: nat)
    requires 2 * k <= |level|
    ensures NextLevel(sha, level) == NextLevel(sha, level[..2 * k]) + NextLevel(sha, level[2 * k..])
    decreases k
  {
    if k == 0 {
      assert level[..0] == [] && level[0..] == level;
      assert [] + NextLevel(sha, level) == NextLevel(sha, level);
    } else {
      var head, rest := level[..2 * k], level[2..];
      FirstPair(sha, level);
      FirstPair(sha, head);
      assert head[2..] == rest[..2 * k - 2] && level[2 * k..] == rest[2 * k - 2..];
      hide NextLevel;
      LevelSplits(sha, rest, k - 1);
      ConsAppend(sha(HashInput(level[0], level[1])), NextLevel(sha, head[2..]), NextLevel(sha, level[2 * k..]));
    }
  }

  lemma FirstPair(sha: Hasher, level: seq<Digest>)
    requires |level| >= 2
    ensures NextLevel(sha, level) == [sha(HashInput(level[0], level[1]))] + NextLevel(sha, level[2..])
  {
  }

  lemma ConsAppend(x: Digest, s: seq<Digest>, t: seq<Digest>)
    ensures [x] + (s + t) == [x] + s + t
  {
  }

  /** One pass of the loop removes one layer of the tree. */
  lemma {:induction false} PassRemovesLayer(sha: Hasher, level: seq<Digest>, d: nat)
    requires 1 <= |level| <= Pow2(d + 1)
    ensures |NextLevel(sha, level)| <= Pow2(d)
    ensures Tree(sha, NextLevel(sha, level), d) == Tree(sha, level, d + 1)
    decreases d
  {
    var next := NextLevel(sha, level);
    if d == 0 {
      assert Pow2(1) == 2;
      if |level| == 2 {
        assert level[..1] == [level[0]] && level[1..] == [level[1]];
        assert Tree(sha, [level[0]], 0) == level[0] && Tree(sha, [level[1]], 0) == level[1];
      }
    } else {
      var half, quarter := Pow2(d), Pow2(d - 1);
      if |level| <= half {
        PassRemovesLayer(sha, level, d - 1);
      } else {
        var left, right := level[..half], level[half..];
        PassRemovesLayer(sha, left, d - 1);
        PassRemovesLayer(sha, right, d - 1);
        LevelSplits(sha, level, quarter);
        assert next[..quarter] == NextLevel(sha, left) && next[quarter..] == NextLevel(sha, right);
      }
    }
  }

  lemma TreeOfOne(sha: Hasher, leaves: seq<Digest>)
    requires |leaves| == 1
    ensures Pow2(0) == 1 && Tree(sha, leaves, 0) == leaves[0]
  {
  }

  /** The loop computes the tree, from the bottom up. */
  lemma {:induction false} RootIsTree(sha: Hasher, leaves: seq<Digest>)
    requires leaves != []
    ensures |leaves| <= Pow2(Height(|leaves|))
    ensures Root(sha, leaves) == Tree(sha, leaves, Height(|leaves|))
    decreases |leaves|
  {
    HeightFits(|leaves|);
    hide Tree, Pow2, NextLevel;
    if |leaves| > 1 {
      RootIsTree(sha, NextLevel(sha, leaves));
      PassRemovesLayer(sha, leaves, Height(|leaves|) - 1);
    } else {
      TreeOfOne(sha, leaves);
    }
  }

  // ---------- What the root binds ----------

  /** No two different messages of the set have one digest. */
  predicate NoCollision(sha: Hasher, messages: set<seq<byte>>) {
    forall x, y :: x in messages && y in messages && sha(x) == sha(y) ==> x == y
  }

  /** The messages hashed by one pass. */
  function PairsHashed(level: seq<Digest>): set<seq<byte>> {
    if |level| == 0 then {}
    else if |level| == 1 then {HashInput(level[0], level[0])}
    else {HashInput(level[0], level[1])} + PairsHashed(level[2..])
  }

  /** The messages hashed on the way to the root. */
  function NodesHashed(sha: Hasher, level: seq<Digest>): set<seq<byte>>
    decreases |level|
  {
    if |level| <= 1 then {} else PairsHashed(level) + NodesHashed(sha, NextLevel(sha, level))
  }

  lemma SplitDigests(a: Digest, b: Digest, c: Digest, d: Digest)
    requires HashInput(a, b) == HashInput(c, d)
    ensures a == c && b == d
  {
    assert a == HashInput(a, b)[..32] && c == HashInput(c, d)[..32];
    assert b == HashInput(a, b)[32..] && d == HashInput(c, d)[32..];
  }

  lemma {:induction false} LevelBinds(sha: Hasher, a: seq<Digest>, b: seq<Digest>)
    requires |a| == |b| && NextLevel(sha, a) == NextLevel(sha, b)
    requires NoCollision(sha, PairsHashed(a) + PairsHashed(b))
    ensures a == b
    decreases |a|
  {
    if |a| == 1 {
      SplitDigests(a[0], a[0], b[0], b[0]);
    } else if |a| > 1 {
      assert NextLevel(sha, a)[0] == NextLevel(sha, b)[0] && NextLevel(sha, a)[1..] == NextLevel(sha, b)[1..];
      SplitDigests(a[0], a[1], b[0], b[1]);
      LevelBinds(sha, a[2..], b[2..]);
      assert a == a[..2] + a[2..] && b == b[..2] + b[2..];
    }
  }

  /** Equally many leaves with one root are the same leaves, unless two of the hashed nodes collide. */
  lemma {:induction false} RootBinds(sha: Hasher, a: seq<Digest>, b: seq<Digest>)
    requires |a| == |b| && a != []
    requires NoCollision(sha, NodesHashed(sha, a) + NodesHashed(sha, b))
    requires Root(sha, a) == Root(sha, b)
    ensures a == b
    decreases |a|
  {
    if |a| > 1 {
      RootBinds(sha, NextLevel(sha, a), NextLevel(sha, b));
      LevelBinds(sha, a, b);
    }
  }

  /** `m * 2^k`. */
  function Doubled(m: nat, k: nat): nat { if k == 0 then m else 2 * Doubled(m, k - 1) }

  lemma {:induction false} DoubledIs(m: nat, k: nat)
    ensures Doubled(m, k) == m * Pow2(k)
    ensures m >= 3 ==> Doubled(m, k) >= 3 * Pow2(k)
  {
    if k > 0 {
      DoubledIs(m, k - 1);
      Halves(k);
      hide Pow2;
      Radix.MulAssociative(m, 2, Pow2(k - 1));
      Radix.MulAssociative(2, m, Pow2(k - 1));
    }
  }

  lemma {:induction false} TailKept(sha: Hasher, leaves: seq<Digest>, m: nat, k: nat)
    requires m >= 3 && m % 2 == 1 && |leaves| == Doubled(m, k) && Pow2(k) <= |leaves|
    ensures Root(sha, leaves + leaves[|leaves| - Pow2(k)..]) == Root(sha, leaves)
    decreases k
  {
    hide NextLevel, Root;
    if k == 0 {
      assert leaves[m - 1..] == [leaves[m - 1]];
      PaddedRoot(sha, leaves);
    } else {
      TailRoot(sha, leaves, Doubled(m, k - 1), Pow2(k - 1));
      TailKept(sha, NextLevel(sha, leaves), m, k - 1);
    }
  }

  /**
   * The number of leaves is not bound: with an odd multiple (3 or more) of `2^k` leaves, the last `2^k` may
   * be repeated.
   */
  lemma RepeatedTail(sha: Hasher, leaves: seq<Digest>, m: nat, k: nat)
    requires m >= 3 && m % 2 == 1 && |leaves| == m * Pow2(k)
    ensures Pow2(k) <= |leaves|
    ensures Root(sha, leaves + leaves[|leaves| - Pow2(k)..]) == Root(sha, leaves)
  {
    DoubledIs(m, k);
    TailKept(sha, leaves, m, k);
  }

  lemma PaddedRoot(sha: Hasher, leaves: seq<Digest>)
    requires |leaves| >= 3 && |leaves| % 2 == 1
    ensures Root(sha, leaves + [leaves[|leaves| - 1]]) == Root(sha, leaves)
  {
    PadLevel(sha, leaves);
    hide NextLevel;
  }

  /** One pass over a level with its tail repeated repeats the tail of the next level. */
  lemma TailPass(sha: Hasher, level: seq<Digest>, pairs: nat, half: nat)
    requires |level| == 2 * pairs && half <= pairs
    ensures NextLevel(sha, level + level[2 * pairs - 2 * half..]) ==
      NextLevel(sha, level) + NextLevel(sha, level)[pairs - half..]
  {
    hide NextLevel;
    var rest := 2 * (pairs - half);
    LevelSplits(sha, level, pairs - half);
    assert NextLevel(sha, level)[pairs - half..] == NextLevel(sha, level[rest..]);
    LevelSplits(sha, level + level[rest..], pairs);
    assert (level + level[rest..])[..2 * pairs] == level && (level + level[rest..])[2 * pairs..] == level[rest..];
  }

  lemma TailRoot(sha: Hasher, level: seq<Digest>, pairs: nat, half: nat)
    requires |level| == 2 * pairs && 1 <= half <= pairs
    ensures var next := NextLevel(sha, level);
      Root(sha, level + level[2 * pairs - 2 * half..]) == Root(sha, next + next[pairs - half..])
      && Root(sha, level) == Root(sha, next)
  {
    TailPass(sha, level, pairs, half);
    hide NextLevel;
  }

  /** Repeating the last of an odd number of leaves, three or more, keeps the root. */
  lemma RepeatedLast(sha: Hasher, leaves: seq<Digest>)
    requires |leaves| >= 3 && |leaves| % 2 == 1
    ensures Root(sha, leaves + [leaves[|leaves| - 1]]) == Root(sha, leaves)
  {
    hide Root, NextLevel;
    assert Pow2(0) == 1;
    RepeatedTail(sha, leaves, |leaves|, 0);
    assert leaves[|leaves| - 1..] == [leaves[|leaves| - 1]];
  }

  // ---------- The rolling hash ----------

  function Rolling(sha: Hasher, digests: seq<Digest>): Digest {
    if digests == [] then Zeros()
    else sha(HashInput(Rolling(sha, digests[..|digests| - 1]), digests[|digests| - 1]))
  }

  /** The empty chain is 32 zero bytes, and each digest is hashed behind the 32 bytes so far. */
  lemma RollingOnBytes(sha: Hasher, digests: seq<Digest>, d: seq<byte>)
    requires |d| == 32
    ensures |Rolling(sha, [])| == 32 && forall i :: 0 <= i < 32 ==> Rolling(sha, [])[i] == 0
    ensures var so: seq<byte> := Rolling(sha, digests); Rolling(sha, digests + [d]) == sha(so + d)
  {
    assert (digests + [d])[..|digests|] == digests;
  }

  function RollingHashed(sha: Hasher, digests: seq<Digest>): set<seq<byte>> {
    if digests == [] then {}
    else
      var rest := digests[..|digests| - 1];
      {HashInput(Rolling(sha, rest), digests[|digests| - 1])} + RollingHashed(sha, rest)
  }

  /** The longer list is the shorter one behind digests that roll back to the start. */
  predicate RollsBack(sha: Hasher, a: seq<Digest>, b: seq<Digest>)
    requires |a| <= |b|
  {
    b[|b| - |a|..] == a && Rolling(sha, b[..|b| - |a|]) == Zeros()
  }

  lemma RollsBackStep(sha: Hasher, a: seq<Digest>, b: seq<Digest>)
    requires 0 < |a| <= |b|
    ensures RollsBack(sha, a, b) <==>
            a[|a| - 1] == b[|b| - 1] && RollsBack(sha, a[..|a| - 1], b[..|b| - 1])
  {
    hide Rolling;
    var p, q, k := a[..|a| - 1], b[..|b| - 1], |b| - |a|;
    assert a == p + [a[|a| - 1]] && b[k..] == q[k..] + [b[|b| - 1]] && q[..k] == b[..k];
  }

  lemma {:induction false} RollingWithin(sha: Hasher, a: seq<Digest>, b: seq<Digest>, all: set<seq<byte>>)
    requires |a| <= |b| && NoCollision(sha, all)
    requires RollingHashed(sha, a) <= all && RollingHashed(sha, b) <= all
    ensures Rolling(sha, a) == Rolling(sha, b) <==> RollsBack(sha, a, b)
    decreases |a|
  {
    if |a| == 0 {
      assert b[..|b|] == b;
    } else {
      var p, q := a[..|a| - 1], b[..|b| - 1];
      RollingWithin(sha, p, q, all);
      RollsBackStep(sha, a, b);
      hide RollsBack;
      if Rolling(sha, a) == Rolling(sha, b) {
        SplitDigests(Rolling(sha, p), a[|a| - 1], Rolling(sha, q), b[|b| - 1]);
      }
    }
  }

  /** Lists of any lengths have one rolling hash exactly when that is so; equally long ones, when they are equal. */
  lemma RollingBinds(sha: Hasher, a: seq<Digest>, b: seq<Digest>)
    requires |a| <= |b|
    requires NoCollision(sha, RollingHashed(sha, a) + RollingHashed(sha, b))
    ensures Rolling(sha, a) == Rolling(sha, b) <==> RollsBack(sha, a, b)
    ensures |a| == |b| ==> (RollsBack(sha, a, b) <==> a == b)
  {
    RollingWithin(sha, a, b, RollingHashed(sha, a) + RollingHashed(sha, b));
    assert |a| == |b| ==> b[..0] == [] && b[0..] == b;
  }
}
