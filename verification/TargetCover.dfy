/** Exactly when target constraints with stars intersect to their conjunction, told from the patterns. */
module TargetCover {
  import opened Common
  import opened Delegation
  import opened GlobCover
  import Glob

  predicate AnyCovers(qs: seq<string>, p: string) { exists i :: 0 <= i < |qs| && Covers(qs[i], p) }

  /** Every pattern of `ps` is covered by one of `qs`. */
  predicate Covered(ps: seq<string>, qs: seq<string>) { forall i :: 0 <= i < |ps| ==> AnyCovers(qs, ps[i]) }

  lemma CoveredHits(ps: seq<string>, qs: seq<string>, target: string)
    requires Covered(ps, qs) && Hits(ps, target)
    ensures Hits(qs, target)
  {
    hide Covers, Glob.Accepts;
    var p :| p in ps && Glob.Accepts(p, target);
    assert AnyCovers(qs, p);
    var i :| 0 <= i < |qs| && Covers(qs[i], p);
    CoverAccepts(qs[i], p, target);
    assert qs[i] in qs;
  }

  /**
   * Any patterns: the intersection is the conjunction if, with no pattern shared, each side covers the
   * other, and otherwise if the shared patterns cover one of the sides.
   */
  lemma CoveredTargets(a: seq<string>, b: seq<string>)
    requires var shared := Shared(a, b);
      if shared == [] then Covered(a, b) && Covered(b, a) else Covered(a, shared) || Covered(b, shared)
    ensures forall ctx: Context :: TargetsConjoin(a, b, ctx)
  {
    hide Shared, Covered, Hits, TargetsConjoin;
    TargetExactness(a, b);
    forall target ensures TargetFits(a, b, target) {
      CoveredFits(a, b, target);
    }
  }

  lemma CoveredFits(a: seq<string>, b: seq<string>, target: string)
    requires var shared := Shared(a, b);
      if shared == [] then Covered(a, b) && Covered(b, a) else Covered(a, shared) || Covered(b, shared)
    ensures TargetFits(a, b, target)
  {
    hide Shared, Covered, Hits;
    var shared := Shared(a, b);
    if Hits(a, target) && Covered(a, if shared == [] then b else shared) {
      CoveredHits(a, if shared == [] then b else shared, target);
    }
    if Hits(b, target) && Covered(b, if shared == [] then a else shared) {
      CoveredHits(b, if shared == [] then a else shared, target);
    }
  }

  /** In particular when the patterns of one side are all among the other's. */
  lemma NestedTargets(a: seq<string>, b: seq<string>)
    requires a != [] && forall p :: p in a ==> p in b
    ensures forall ctx: Context :: TargetsConjoin(a, b, ctx)
  {
    hide Shared, Covers, TargetsConjoin;
    var shared := Shared(a, b);
    forall i | 0 <= i < |a| ensures AnyCovers(shared, a[i]) {
      SharedMembers(a, b, a[i]);
      var j :| 0 <= j < |shared| && shared[j] == a[i];
      CoversItself(a[i]);
    }
    SharedMembers(a, b, a[0]);
    CoveredTargets(a, b);
  }

  // ---------- One side without stars ----------

  lemma LiteralHit(qs: seq<string>, p: string)
    requires '*' !in p
    ensures Hits(qs, p) <==> AnyCovers(qs, p)
  {
    hide Covers, Glob.Accepts;
    forall i | 0 <= i < |qs| ensures Covers(qs[i], p) <==> Glob.Accepts(qs[i], p) {
      CoversLiteral(qs[i], p);
    }
  }

  /** Told from the patterns: whether star-free patterns intersect exactly with any others. */
  predicate LiteralsConjoin(literals: seq<string>, others: seq<string>) {
    if Shared(literals, others) == [] then literals == [] && others == []
    else forall i :: 0 <= i < |literals| && AnyCovers(others, literals[i]) ==> literals[i] in others
  }

  lemma SharedHits(literals: seq<string>, others: seq<string>, target: string)
    requires StarFree(literals)
    ensures Hits(Shared(literals, others), target) <==> target in literals && target in others
  {
    hide Shared, Hits;
    forall p ensures p in Shared(literals, others) <==> p in literals && p in others {
      SharedMembers(literals, others, p);
    }
    forall i | 0 <= i < |Shared(literals, others)| ensures '*' !in Shared(literals, others)[i] {
      assert Shared(literals, others)[i] in literals;
    }
    LiteralHits(Shared(literals, others), target);
  }

  lemma LiteralsFit(literals: seq<string>, others: seq<string>, target: string)
    requires StarFree(literals) && Shared(literals, others) != []
    ensures TargetFits(literals, others, target) <==>
      (target in literals && AnyCovers(others, target) ==> target in others)
  {
    hide Shared, Hits, AnyCovers;
    LiteralHits(literals, target);
    SharedHits(literals, others, target);
    if target in literals {
      LiteralHit(others, target);
    }
  }

  function Longest(ps: seq<string>): (n: nat)
    ensures forall i :: 0 <= i < |ps| ==> |ps[i]| <= n
  {
    if ps == [] then 0
    else
      var n := Longest(ps[1..]);
      if |ps[0]| < n then n else |ps[0]|
  }

  /** Nothing shared: some target is accepted by one side only, unless both sides are empty. */
  lemma UnsharedTarget(literals: seq<string>, others: seq<string>) returns (target: string)
    requires StarFree(literals) && Shared(literals, others) == [] && literals + others != []
    ensures !TargetFits(literals, others, target)
  {
    hide Shared, Hits, Longest;
    if others == [] {
      target := literals[0];
      LiteralHits(literals, target);
      LiteralHits(others, target);
    } else if '*' in others[0] {
      target := StarredIsUnbounded(others[0], Longest(literals) + 1);
      LiteralHits(literals, target);
      HitBy(others, 0, target);
    } else {
      target := others[0];
      LiteralHits(literals, target);
      SharedMembers(literals, others, target);
      Glob.LiteralPattern(target, target);
      HitBy(others, 0, target);
    }
  }

  lemma HitBy(ps: seq<string>, i: nat, target: string)
    requires i < |ps| && Glob.Accepts(ps[i], target)
    ensures Hits(ps, target)
  {
  }

  lemma LiteralsExact(literals: seq<string>, others: seq<string>)
    requires StarFree(literals)
    ensures (forall target :: TargetFits(literals, others, target)) <==> LiteralsConjoin(literals, others)
  {
    hide TargetFits, Shared, StarFree, AnyCovers, Hits;
    if Shared(literals, others) != [] {
      forall target
        ensures TargetFits(literals, others, target) <==>
          (target in literals && AnyCovers(others, target) ==> target in others)
      {
        LiteralsFit(literals, others, target);
      }
      forall i | 0 <= i < |literals| && forall target :: TargetFits(literals, others, target)
        ensures AnyCovers(others, literals[i]) ==> literals[i] in others
      {
        assert TargetFits(literals, others, literals[i]);
      }
    } else if literals + others != [] {
      var target := UnsharedTarget(literals, others);
    } else {
      forall target ensures TargetFits(literals, others, target) {
        NothingFits(literals, others, target);
      }
    }
  }

  lemma NothingFits(a: seq<string>, b: seq<string>, target: string)
    requires a == [] && b == []
    ensures TargetFits(a, b, target)
  {
  }

  lemma FitsEitherWay(a: seq<string>, b: seq<string>, target: string)
    ensures TargetFits(a, b, target) <==> TargetFits(b, a, target)
  {
    hide Shared, Glob.Accepts;
    forall p ensures p in Shared(a, b) <==> p in Shared(b, a) {
      SharedMembers(a, b, p);
      SharedMembers(b, a, p);
    }
    assert Shared(a, b) != [] ==> Shared(a, b)[0] in Shared(b, a);
    assert Shared(b, a) != [] ==> Shared(b, a)[0] in Shared(a, b);
  }

  /**
   * If one side has no stars, the intersection is the conjunction exactly when a pattern is shared and
   * every pattern of that side that the other side covers is shared, or when neither side has any.
   */
  lemma LiteralSideExactness(a: seq<string>, b: seq<string>)
    requires StarFree(a) || StarFree(b)
    ensures (forall ctx: Context :: TargetsConjoin(a, b, ctx)) <==>
      if StarFree(a) then LiteralsConjoin(a, b) else LiteralsConjoin(b, a)
  {
    hide TargetsConjoin, TargetFits, LiteralsConjoin, StarFree;
    TargetExactness(a, b);
    forall target ensures TargetFits(a, b, target) <==> TargetFits(b, a, target) {
      FitsEitherWay(a, b, target);
    }
    if StarFree(a) {
      LiteralsExact(a, b);
    } else {
      LiteralsExact(b, a);
    }
  }
}
