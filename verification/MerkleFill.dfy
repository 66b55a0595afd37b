/** Exactly which lists of leaves share a Merkle root: those that padding fills up to the same full tree. */
module MerkleFill {
  import opened Common
  import opened Merkle

  // ---------- The full tree a list amounts to ----------

  /** The `2^d` leaves of the tree over `leaves`: a missing right half repeats the left. */
  function Fill<T>(leaves: seq<T>, d: nat): (r: seq<T>)
    requires 1 <= |leaves| <= Pow2(d)
    ensures |r| == Pow2(d)
    decreases d
  {
    if d == 0 then leaves
    else
      var half := Pow2(d - 1);
      if |leaves| <= half then var f := Fill(leaves, d - 1); f + f
      else leaves[..half] + Fill(leaves[half..], d - 1)
  }

  /** Which of `n` leaves stands at place `i` of the full tree. */
  function FillAt(n: nat, d: nat, i: nat): (k: nat)
    requires 1 <= n <= Pow2(d) && i < Pow2(d)
    ensures k < n && (i < n ==> k == i)
    decreases d
  {
    if d == 0 then 0
    else
      var half := Pow2(d - 1);
      if n <= half then FillAt(n, d - 1, if i < half then i else i - half)
      else if i < half then i
      else half + FillAt(n - half, d - 1, i - half)
  }

  lemma FillFew<T>(leaves: seq<T>, d: nat)
    requires d > 0 && 1 <= |leaves| <= Pow2(d - 1)
    ensures Pow2(d) == 2 * Pow2(d - 1)
    ensures Fill(leaves, d) == Fill(leaves, d - 1) + Fill(leaves, d - 1)
  {
    Halves(d);
    hide Pow2;
  }

  lemma FillMany<T>(leaves: seq<T>, d: nat)
    requires d > 0 && Pow2(d - 1) < |leaves| <= Pow2(d)
    ensures Pow2(d) == 2 * Pow2(d - 1)
    ensures Fill(leaves, d) == leaves[..Pow2(d - 1)] + Fill(leaves[Pow2(d - 1)..], d - 1)
  {
    Halves(d);
    hide Pow2;
  }

  lemma FillNone<T>(leaves: seq<T>)
    requires 1 <= |leaves| <= Pow2(0)
    ensures |leaves| == Pow2(0) == 1 && Fill(leaves, 0) == leaves
  {
    Halves(0);
    hide Pow2;
  }

  /** The three ways down to a leaf. */
  lemma PlaceFew(n: nat, d: nat, i: nat)
    requires d > 0 && 1 <= n <= Pow2(d - 1) && i < Pow2(d) == 2 * Pow2(d - 1)
    ensures FillAt(n, d, i) == FillAt(n, d - 1, if i < Pow2(d - 1) then i else i - Pow2(d - 1))
  {
    hide Pow2;
  }

  lemma PlaceFirst(n: nat, d: nat, i: nat)
    requires d > 0 && Pow2(d - 1) < n <= Pow2(d) == 2 * Pow2(d - 1) && i < Pow2(d - 1)
    ensures FillAt(n, d, i) == i
  {
    hide Pow2;
  }

  lemma PlaceSecond(n: nat, d: nat, i: nat)
    requires d > 0 && Pow2(d - 1) < n <= Pow2(d) == 2 * Pow2(d - 1) && Pow2(d - 1) <= i < Pow2(d)
    ensures FillAt(n, d, i) == Pow2(d - 1) + FillAt(n - Pow2(d - 1), d - 1, i - Pow2(d - 1))
  {
    hide Pow2;
  }

  lemma {:induction false} FillIndex<T>(leaves: seq<T>, d: nat, i: nat)
    requires 1 <= |leaves| <= Pow2(d) && i < Pow2(d)
    ensures Fill(leaves, d)[i] == leaves[FillAt(|leaves|, d, i)]
    decreases d, 1
  {
    hide Fill, FillAt, Pow2;
    if d == 0 {
      FillNone(leaves);
    } else if |leaves| <= Pow2(d - 1) {
      IndexFew(leaves, d, i);
    } else if i < Pow2(d - 1) {
      FillMany(leaves, d);
      PlaceFirst(|leaves|, d, i);
    } else {
      IndexMany(leaves, d, i);
    }
  }

  lemma {:induction false} IndexFew<T>(leaves: seq<T>, d: nat, i: nat)
    requires d > 0 && 1 <= |leaves| <= Pow2(d - 1) && i < Pow2(d)
    ensures Fill(leaves, d)[i] == leaves[FillAt(|leaves|, d, i)]
    decreases d, 0
  {
    hide Fill, FillAt, Pow2;
    FillFew(leaves, d);
    PlaceFew(|leaves|, d, i);
    FillIndex(leaves, d - 1, if i < Pow2(d - 1) then i else i - Pow2(d - 1));
  }

  lemma {:induction false} IndexMany<T>(leaves: seq<T>, d: nat, i: nat)
    requires d > 0 && Pow2(d - 1) < |leaves| <= Pow2(d) && Pow2(d - 1) <= i < Pow2(d)
    ensures Fill(leaves, d)[i] == leaves[FillAt(|leaves|, d, i)]
    decreases d, 0
  {
    hide Fill, FillAt, Pow2;
    FillMany(leaves, d);
    PlaceSecond(|leaves|, d, i);
    FillIndex(leaves[Pow2(d - 1)..], d - 1, i - Pow2(d - 1));
  }

  /** The list comes first, and nothing new is added. */
  lemma FillStarts<T>(leaves: seq<T>, d: nat)
    requires 1 <= |leaves| <= Pow2(d)
    ensures Fill(leaves, d)[..|leaves|] == leaves
    ensures forall x :: x in Fill(leaves, d) <==> x in leaves
  {
    hide Fill;
    var full := Fill(leaves, d);
    forall i | 0 <= i < |full| ensures full[i] in leaves && (i < |leaves| ==> full[i] == leaves[i]) {
      FillIndex(leaves, d, i);
    }
    forall x | x in leaves ensures x in full {
      var i :| 0 <= i < |leaves| && leaves[i] == x;
      assert full[i] == x;
    }
  }

  /** A list that is full already. */
  lemma {:induction false} FillFull<T>(leaves: seq<T>, d: nat)
    requires |leaves| == Pow2(d)
    ensures Fill(leaves, d) == leaves
    decreases d
  {
    hide Fill, Pow2;
    if d == 0 {
      FillNone(leaves);
    } else {
      Halves(d);
      FillMany(leaves, d);
      FillFull(leaves[Pow2(d - 1)..], d - 1);
    }
  }

  // ---------- Trees with one filling ----------

  /** The leaves under the left and the right subtree. */
  function Left<T>(leaves: seq<T>, d: nat): (r: seq<T>)
    requires d > 0 && 1 <= |leaves| <= Pow2(d)
    ensures 1 <= |r| <= Pow2(d - 1) && r[0] == leaves[0]
  {
    if |leaves| <= Pow2(d - 1) then leaves else leaves[..Pow2(d - 1)]
  }

  function Right<T>(leaves: seq<T>, d: nat): (r: seq<T>)
    requires d > 0 && 1 <= |leaves| <= Pow2(d)
    ensures 1 <= |r| <= Pow2(d - 1)
  {
    if |leaves| <= Pow2(d - 1) then leaves else leaves[Pow2(d - 1)..]
  }

  lemma FillHalves<T>(leaves: seq<T>, d: nat)
    requires d > 0 && 1 <= |leaves| <= Pow2(d)
    ensures Fill(leaves, d) == Fill(Left(leaves, d), d - 1) + Fill(Right(leaves, d), d - 1)
  {
    hide Fill, Pow2;
    if |leaves| <= Pow2(d - 1) {
      FillFew(leaves, d);
    } else {
      FillMany(leaves, d);
      FillFull(leaves[..Pow2(d - 1)], d - 1);
    }
  }

  function LeftRoot(sha: Hasher, leaves: seq<Digest>, d: nat): Digest
    requires d > 0 && 1 <= |leaves| <= Pow2(d)
  {
    Tree(sha, Left(leaves, d), d - 1)
  }

  function RightRoot(sha: Hasher, leaves: seq<Digest>, d: nat): Digest
    requires d > 0 && 1 <= |leaves| <= Pow2(d)
  {
    Tree(sha, Right(leaves, d), d - 1)
  }

  lemma Subroots(sha: Hasher, leaves: seq<Digest>, d: nat)
    requires d > 0 && 1 <= |leaves| <= Pow2(d)
    ensures LeftRoot(sha, leaves, d) == Tree(sha, Left(leaves, d), d - 1)
    ensures RightRoot(sha, leaves, d) == Tree(sha, Right(leaves, d), d - 1)
  {
    hide Tree, Left, Right, Pow2;
  }

  /** The message whose digest is the root. */
  function TopNode(sha: Hasher, leaves: seq<Digest>, d: nat): seq<byte>
    requires d > 0 && 1 <= |leaves| <= Pow2(d)
  {
    HashInput(LeftRoot(sha, leaves, d), RightRoot(sha, leaves, d))
  }

  lemma TreeTop(sha: Hasher, leaves: seq<Digest>, d: nat)
    requires d > 0 && 1 <= |leaves| <= Pow2(d)
    ensures Tree(sha, leaves, d) == sha(TopNode(sha, leaves, d)) && |TopNode(sha, leaves, d)| == 64
  {
  }

  lemma {:induction false} SameFillSameTree(sha: Hasher, a: seq<Digest>, b: seq<Digest>, d: nat)
    requires 1 <= |a| <= Pow2(d) && 1 <= |b| <= Pow2(d) && Fill(a, d) == Fill(b, d)
    ensures Tree(sha, a, d) == Tree(sha, b, d)
    decreases d
  {
    hide Fill, Tree, Left, Right, Pow2;
    if d == 0 {
      FillNone(a);
      FillNone(b);
    } else {
      FillHalves(a, d);
      FillHalves(b, d);
      TreeTop(sha, a, d);
      TreeTop(sha, b, d);
      SplitEqual(Fill(Left(a, d), d - 1), Fill(Right(a, d), d - 1), Fill(Left(b, d), d - 1), Fill(Right(b, d), d - 1));
      SameFillSameTree(sha, Left(a, d), Left(b, d), d - 1);
      SameFillSameTree(sha, Right(a, d), Right(b, d), d - 1);
    }
  }

  /** The messages hashed in the tree. */
  function TreeHashed(sha: Hasher, leaves: seq<Digest>, d: nat): set<seq<byte>>
    requires 1 <= |leaves| <= Pow2(d)
    decreases d
  {
    if d == 0 then {}
    else
      {TopNode(sha, leaves, d)} + TreeHashed(sha, Left(leaves, d), d - 1) + TreeHashed(sha, Right(leaves, d), d - 1)
  }

  lemma HashedParts(sha: Hasher, leaves: seq<Digest>, d: nat)
    requires d > 0 && 1 <= |leaves| <= Pow2(d)
    ensures TopNode(sha, leaves, d) in TreeHashed(sha, leaves, d)
    ensures TreeHashed(sha, Left(leaves, d), d - 1) <= TreeHashed(sha, leaves, d)
    ensures TreeHashed(sha, Right(leaves, d), d - 1) <= TreeHashed(sha, leaves, d)
  {
    hide TopNode, Left, Right;
  }

  lemma NoneCollide(sha: Hasher, all: set<seq<byte>>, x: seq<byte>, y: seq<byte>)
    requires NoCollision(sha, all) && x in all && y in all && sha(x) == sha(y)
    ensures x == y
  {
  }

  /** Trees of one root have equal subtrees, unless two hashed messages collide. */
  lemma SameTop(sha: Hasher, a: seq<Digest>, d: nat, b: seq<Digest>, e: nat, all: set<seq<byte>>)
    requires d > 0 && e > 0 && 1 <= |a| <= Pow2(d) && 1 <= |b| <= Pow2(e)
    requires TreeHashed(sha, a, d) <= all && TreeHashed(sha, b, e) <= all && NoCollision(sha, all)
    requires Tree(sha, a, d) == Tree(sha, b, e)
    ensures LeftRoot(sha, a, d) == LeftRoot(sha, b, e) && RightRoot(sha, a, d) == RightRoot(sha, b, e)
  {
    hide *;
    TreeTop(sha, a, d);
    TreeTop(sha, b, e);
    HashedParts(sha, a, d);
    HashedParts(sha, b, e);
    NoneCollide(sha, all, TopNode(sha, a, d), TopNode(sha, b, e));
    TopIs(sha, a, d);
    TopIs(sha, b, e);
    SplitDigests(LeftRoot(sha, a, d), RightRoot(sha, a, d), LeftRoot(sha, b, e), RightRoot(sha, b, e));
  }

  /** Trees of one depth and one root have one filling, unless two hashed messages collide. */
  lemma {:induction false} TreeBinds(sha: Hasher, a: seq<Digest>, b: seq<Digest>, d: nat, all: set<seq<byte>>)
    requires 1 <= |a| <= Pow2(d) && 1 <= |b| <= Pow2(d)
    requires TreeHashed(sha, a, d) <= all && TreeHashed(sha, b, d) <= all && NoCollision(sha, all)
    requires Tree(sha, a, d) == Tree(sha, b, d)
    ensures Fill(a, d) == Fill(b, d)
    decreases d
  {
    hide *;
    if d == 0 {
      TreeOfLeaf(sha, a);
      TreeOfLeaf(sha, b);
    } else {
      SameTop(sha, a, d, b, d, all);
      Subroots(sha, a, d);
      Subroots(sha, b, d);
      HashedParts(sha, a, d);
      HashedParts(sha, b, d);
      FillHalves(a, d);
      FillHalves(b, d);
      TreeBinds(sha, Left(a, d), Left(b, d), d - 1, all);
      TreeBinds(sha, Right(a, d), Right(b, d), d - 1, all);
    }
  }

  lemma TreeOfLeaf(sha: Hasher, a: seq<Digest>)
    requires 1 <= |a| <= Pow2(0)
    ensures Tree(sha, a, 0) == a[0] && Fill(a, 0) == [a[0]]
  {
  }

  // ---------- The tree hashes what the loop hashes ----------

  lemma {:induction false} PairsSplit(level: seq<Digest>, k: nat)
    requires 2 * k <= |level|
    ensures PairsHashed(level) == PairsHashed(level[..2 * k]) + PairsHashed(level[2 * k..])
    decreases k
  {
    if k == 0 {
      assert level[..0] == [] && level[0..] == level;
    } else {
      PairsSplit(level[2..], k - 1);
      assert level[2..][..2 * (k - 1)] == level[..2 * k][2..];
      assert level[2..][2 * (k - 1)..] == level[2 * k..];
    }
  }

  lemma PairsOfOne(level: seq<Digest>)
    requires 1 <= |level| <= 2
    ensures PairsHashed(level) == {HashInput(level[0], level[|level| - 1])}
  {
    if |level| == 2 {
      assert level[2..] == [];
    }
  }

  lemma NextOfHalf(sha: Hasher, level: seq<Digest>, d: nat)
    requires d > 0 && 1 <= |level| <= Pow2(d + 1)
    ensures |NextLevel(sha, level)| <= Pow2(d)
    ensures Left(NextLevel(sha, level), d) == NextLevel(sha, Left(level, d + 1))
    ensures Right(NextLevel(sha, level), d) == NextLevel(sha, Right(level, d + 1))
  {
    var half, quarter := Pow2(d), Pow2(d - 1);
    if |level| > half {
      LevelSplits(sha, level, quarter);
    }
  }

  lemma {:induction false} PassHashes(sha: Hasher, level: seq<Digest>, d: nat)
    requires 1 <= |level| <= Pow2(d + 1)
    ensures |NextLevel(sha, level)| <= Pow2(d)
    ensures TreeHashed(sha, level, d + 1) <= PairsHashed(level) + TreeHashed(sha, NextLevel(sha, level), d)
    decreases d
  {
    hide *;
    if d == 0 {
      BottomPass(sha, level);
    } else {
      NextOfHalf(sha, level, d);
      SameTopAfterPass(sha, level, d);
      PassHashes(sha, Left(level, d + 1), d - 1);
      PassHashes(sha, Right(level, d + 1), d - 1);
      PairsOfHalves(level, d + 1);
      HashedWhole(sha, level, d + 1);
      HashedParts(sha, NextLevel(sha, level), d);
    }
  }

  lemma HashedWhole(sha: Hasher, leaves: seq<Digest>, d: nat)
    requires d > 0 && 1 <= |leaves| <= Pow2(d)
    ensures TreeHashed(sha, leaves, d) ==
      {TopNode(sha, leaves, d)} + TreeHashed(sha, Left(leaves, d), d - 1) + TreeHashed(sha, Right(leaves, d), d - 1)
  {
    hide TopNode, Left, Right;
  }

  lemma BottomPass(sha: Hasher, level: seq<Digest>)
    requires 1 <= |level| <= Pow2(1)
    ensures |NextLevel(sha, level)| <= Pow2(0)
    ensures TreeHashed(sha, level, 1) <= PairsHashed(level)
  {
    PairsOfOne(level);
    assert TreeHashed(sha, Left(level, 1), 0) == {} && TreeHashed(sha, Right(level, 1), 0) == {};
    hide PairsHashed;
  }

  lemma PairsOfHalves(level: seq<Digest>, d: nat)
    requires d > 1 && 1 <= |level| <= Pow2(d)
    ensures PairsHashed(Left(level, d)) <= PairsHashed(level) && PairsHashed(Right(level, d)) <= PairsHashed(level)
  {
    hide PairsHashed;
    if |level| > Pow2(d - 1) {
      PairsSplit(level, Pow2(d - 2));
    }
  }

  lemma SameTopAfterPass(sha: Hasher, level: seq<Digest>, d: nat)
    requires d > 0 && 1 <= |level| <= Pow2(d + 1)
    ensures |NextLevel(sha, level)| <= Pow2(d) && TopNode(sha, NextLevel(sha, level), d) == TopNode(sha, level, d + 1)
  {
    hide *;
    NextOfHalf(sha, level, d);
    PassRemovesLayer(sha, Left(level, d + 1), d - 1);
    PassRemovesLayer(sha, Right(level, d + 1), d - 1);
    TopIs(sha, NextLevel(sha, level), d);
    TopIs(sha, level, d + 1);
    Subroots(sha, NextLevel(sha, level), d);
    Subroots(sha, level, d + 1);
  }

  lemma TopIs(sha: Hasher, leaves: seq<Digest>, d: nat)
    requires d > 0 && 1 <= |leaves| <= Pow2(d)
    ensures TopNode(sha, leaves, d) == HashInput(LeftRoot(sha, leaves, d), RightRoot(sha, leaves, d))
  {
    hide LeftRoot, RightRoot, HashInput, Pow2;
  }

  lemma {:induction false} TreeWithinLoop(sha: Hasher, leaves: seq<Digest>)
    requires leaves != []
    ensures |leaves| <= Pow2(Height(|leaves|))
    ensures TreeHashed(sha, leaves, Height(|leaves|)) <= NodesHashed(sha, leaves)
    decreases |leaves|
  {
    hide *;
    HeightFits(|leaves|);
    OneLevel(sha, leaves);
    if |leaves| > 1 {
      TreeWithinLoop(sha, NextLevel(sha, leaves));
      PassHashes(sha, leaves, Height(|leaves|) - 1);
    } else {
      NothingHashed(sha, leaves);
    }
  }

  lemma OneLevel(sha: Hasher, leaves: seq<Digest>)
    requires leaves != []
    ensures |leaves| == 1 ==> Height(|leaves|) == 0
    ensures |leaves| > 1 ==> Height(|leaves|) == Height(|NextLevel(sha, leaves)|) + 1
    ensures |leaves| > 1 ==> NodesHashed(sha, leaves) == PairsHashed(leaves) + NodesHashed(sha, NextLevel(sha, leaves))
  {
    hide NextLevel, PairsHashed;
  }

  lemma NothingHashed(sha: Hasher, leaves: seq<Digest>)
    requires |leaves| == 1
    ensures Pow2(0) == 1 && TreeHashed(sha, leaves, 0) == {}
  {
  }

  // ---------- Roots ----------

  predicate SameFill<T(==)>(a: seq<T>, b: seq<T>)
    requires a != [] && b != []
  {
    HeightFits(|a|);
    HeightFits(|b|);
    Height(|a|) == Height(|b|) && Fill(a, Height(|a|)) == Fill(b, Height(|b|))
  }

  /** Lists of one height have one root exactly when they fill up to the same full tree. */
  lemma RootExact(sha: Hasher, a: seq<Digest>, b: seq<Digest>)
    requires a != [] && b != [] && Height(|a|) == Height(|b|)
    requires NoCollision(sha, NodesHashed(sha, a) + NodesHashed(sha, b))
    ensures Root(sha, a) == Root(sha, b) <==> SameFill(a, b)
  {
    var d := Height(|a|);
    RootIsTree(sha, a);
    RootIsTree(sha, b);
    TreeWithinLoop(sha, a);
    TreeWithinLoop(sha, b);
    hide Root, Tree, TreeHashed, NodesHashed, NoCollision, Fill, Height, Pow2;
    if Root(sha, a) == Root(sha, b) {
      TreeBinds(sha, a, b, d, NodesHashed(sha, a) + NodesHashed(sha, b));
    }
    if Fill(a, d) == Fill(b, d) {
      SameFillSameTree(sha, a, b, d);
    }
  }

  /** Lists without repetition that fill up alike are equal. */
  lemma DistinctFill<T>(a: seq<T>, b: seq<T>, d: nat)
    requires 1 <= |a| <= |b| <= Pow2(d) && Distinct(b) && Fill(a, d) == Fill(b, d)
    ensures a == b
  {
    hide Fill, Pow2;
    FillStarts(a, d);
    FillStarts(b, d);
    assert Fill(a, d)[..|a|] == Fill(b, d)[..|b|][..|a|];
    if |a| < |b| {
      FillRepeats(a, b, d);
    }
  }

  lemma FillRepeats<T>(a: seq<T>, b: seq<T>, d: nat)
    requires 1 <= |a| < |b| <= Pow2(d) && Fill(a, d) == Fill(b, d)
    ensures !Distinct(b)
  {
    hide Fill, Pow2;
    FillStarts(a, d);
    FillStarts(b, d);
    var full := Fill(a, d);
    assert full[|a|] == full[..|b|][|a|] == b[|a|];
    assert full[|a|] in full;
    var k :| 0 <= k < |a| && a[k] == full[|a|];
    assert full[..|a|][k] == full[..|b|][k];
  }

  /** Leaves without repetition: one height and one root mean one list, whatever the counts. */
  lemma DistinctBind(sha: Hasher, a: seq<Digest>, b: seq<Digest>)
    requires a != [] && b != [] && Height(|a|) == Height(|b|) && Distinct(a) && Distinct(b)
    requires NoCollision(sha, NodesHashed(sha, a) + NodesHashed(sha, b))
    requires Root(sha, a) == Root(sha, b)
    ensures a == b
  {
    RootExact(sha, a, b);
    HeightFits(|a|);
    HeightFits(|b|);
    hide Fill, Height, Root, NodesHashed, Pow2;
    if |a| <= |b| {
      DistinctFill(a, b, Height(|a|));
    } else {
      DistinctFill(b, a, Height(|a|));
    }
  }

  // ---------- Lists of different heights ----------

  lemma {:induction false} LeafIsNode(sha: Hasher, a: seq<Digest>, d: nat, b: seq<Digest>, e: nat, all: set<seq<byte>>)
    returns (x: seq<byte>)
    requires 1 <= |a| <= Pow2(d) && 1 <= |b| <= Pow2(e) && d < e
    requires TreeHashed(sha, a, d) <= all && TreeHashed(sha, b, e) <= all && NoCollision(sha, all)
    requires Tree(sha, a, d) == Tree(sha, b, e)
    ensures x in TreeHashed(sha, b, e) && |x| == 64 && sha(x) == a[0]
    decreases d
  {
    hide *;
    HashedParts(sha, b, e);
    if d == 0 {
      TreeTop(sha, b, e);
      TreeOfLeaf(sha, a);
      x := TopNode(sha, b, e);
    } else {
      HashedParts(sha, a, d);
      SameTop(sha, a, d, b, e, all);
      Subroots(sha, a, d);
      Subroots(sha, b, e);
      x := LeafIsNode(sha, Left(a, d), d - 1, Left(b, e), e - 1, all);
    }
  }

  /**
   * Lists of different heights share a root only if the first leaf of the lower is the digest of a 64-byte
   * node of the higher.
   */
  lemma AcrossHeights(sha: Hasher, a: seq<Digest>, b: seq<Digest>) returns (x: seq<byte>)
    requires a != [] && b != [] && Height(|a|) < Height(|b|)
    requires NoCollision(sha, NodesHashed(sha, a) + NodesHashed(sha, b))
    requires Root(sha, a) == Root(sha, b)
    ensures x in NodesHashed(sha, b) && |x| == 64 && sha(x) == a[0]
  {
    RootIsTree(sha, a);
    RootIsTree(sha, b);
    TreeWithinLoop(sha, a);
    TreeWithinLoop(sha, b);
    hide *;
    x := LeafIsNode(sha, a, Height(|a|), b, Height(|b|), NodesHashed(sha, a) + NodesHashed(sha, b));
  }
}
