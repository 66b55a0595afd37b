/** Delegation chains (`delegation.rs`) and the constraint algebra under them (`capability.rs`). */
module Delegation {
  import opened Common
  import Glob

  type i64 = x: int | -0x8000_0000_0000_0000 <= x < 0x8000_0000_0000_0000

  datatype ApprovalRequirement = NoApproval | Conditional | Other(name: string)

  datatype Constraint =
    | TimeWindow(from: Option<string>, until: string)
    | Target(patterns: seq<string>)
    | Quantity(max: i64, unit: Option<string>)
    | Rate(maxPerWindow: i64, windowSeconds: i64)
    | Session(sessionId: string)
    | Approval(approval: ApprovalRequirement)
    | Quorum(quorum: i64, approvers: seq<string>)
    | DeviceBinding(device: string)

  datatype Context = Context(now: string, sessionId: Option<string>, target: Option<string>, approvers: Option<nat>,
                             device: Option<string>)

  /** `satisfies`. */
  ghost predicate Satisfies(c: Constraint, ctx: Context) {
    match c
    case TimeWindow(from, until) => (from.Some? ==> !Less(ctx.now, from.value)) && !Less(until, ctx.now)
    case Target(patterns) => ctx.target.Some? && exists p :: p in patterns && Glob.Accepts(p, ctx.target.value)
    case Quantity(_, _) => true
    case Rate(_, _) => true
    case Session(id) => ctx.sessionId == Some(id)
    case Approval(a) => a.NoApproval? || a.Conditional?
    case Quorum(q, _) => (if ctx.approvers.Some? then ctx.approvers.value else 0) >= q
    case DeviceBinding(d) => ctx.device == Some(d)
  }

  ghost predicate AllSatisfied(cs: seq<Constraint>, ctx: Context) {
    forall i :: 0 <= i < |cs| ==> Satisfies(cs[i], ctx)
  }

  predicate SameKind(a: Constraint, b: Constraint) {
    || (a.TimeWindow? && b.TimeWindow?) || (a.Target? && b.Target?) || (a.Quantity? && b.Quantity?)
    || (a.Rate? && b.Rate?) || (a.Session? && b.Session?) || (a.Approval? && b.Approval?)
    || (a.Quorum? && b.Quorum?) || (a.DeviceBinding? && b.DeviceBinding?)
  }

  function PickLater(a: Option<string>, b: Option<string>): Option<string> {
    if a.Some? && b.Some? then Some(if Less(b.value, a.value) then a.value else b.value)
    else if a.Some? then a
    else b
  }

  function PickEarlier(a: string, b: string): string { if Less(a, b) then a else b }

  function Shared(a: seq<string>, b: seq<string>): seq<string> {
    if a == [] then [] else (if a[0] in b then [a[0]] else []) + Shared(a[1..], b)
  }

  function MinI64(a: i64, b: i64): i64 { if a < b then a else b }

  function MaxI64(a: i64, b: i64): i64 { if a < b then b else a }

  /** `intersect_same`. */
  function IntersectSame(a: Constraint, b: Constraint): Constraint {
    match (a, b)
    case (TimeWindow(af, au), TimeWindow(bf, bu)) => TimeWindow(PickLater(af, bf), PickEarlier(au, bu))
    case (Target(ap), Target(bp)) => Target(if Shared(ap, bp) == [] then ap + bp else Shared(ap, bp))
    case (Quantity(am, au), Quantity(bm, bu)) => Quantity(MinI64(am, bm), if au.Some? then au else bu)
    case (Rate(am, aw), Rate(bm, bw)) => Rate(MinI64(am, bm), MinI64(aw, bw))
    case (Quorum(aq, ao), Quorum(bq, _)) => Quorum(MaxI64(aq, bq), ao)
    case _ => a
  }

  /** The first constraint of a kind, if any. */
  function Find(cs: seq<Constraint>, c: Constraint): (r: Option<nat>)
    ensures r.Some? ==> r.value < |cs| && SameKind(cs[r.value], c)
    ensures r.None? ==> forall i :: 0 <= i < |cs| ==> !SameKind(cs[i], c)
  {
    if cs == [] then None
    else if SameKind(cs[0], c) then Some(0)
    else match Find(cs[1..], c) case Some(i) => Some(i + 1) case None => None
  }

  function Add(cs: seq<Constraint>, c: Constraint): seq<Constraint> {
    match Find(cs, c)
    case Some(i) => cs[i := IntersectSame(cs[i], c)]
    case None => cs + [c]
  }

  function Intersect(a: seq<Constraint>, b: seq<Constraint>): seq<Constraint>
    decreases b
  {
    if b == [] then a else Intersect(Add(a, b[0]), b[1..])
  }

  // ---------- Laws of intersection ----------

  predicate OneOfEachKind(cs: seq<Constraint>) {
    forall i, j :: 0 <= i < j < |cs| ==> !SameKind(cs[i], cs[j])
  }

  /** The kinds whose intersection is exact: windows, quantities, rates and quorums. */
  predicate Exact(c: Constraint) { c.TimeWindow? || c.Quantity? || c.Rate? || c.Quorum? }

  predicate AllExact(cs: seq<Constraint>) { forall i :: 0 <= i < |cs| ==> Exact(cs[i]) }

  lemma AddKeepsKinds(cs: seq<Constraint>, c: Constraint)
    requires OneOfEachKind(cs)
    ensures OneOfEachKind(Add(cs, c))
  {
  }

  lemma {:induction false} IntersectKeepsKinds(a: seq<Constraint>, b: seq<Constraint>)
    requires OneOfEachKind(a)
    ensures OneOfEachKind(Intersect(a, b))
    decreases b
  {
    if b != [] {
      AddKeepsKinds(a, b[0]);
      IntersectKeepsKinds(Add(a, b[0]), b[1..]);
    }
  }

  lemma LaterBound(a: string, b: string, now: string)
    ensures var later := if Less(b, a) then a else b;
            !Less(now, later) <==> !Less(now, a) && !Less(now, b)
  {
    LessTotal(a, b);
    if Less(b, a) && Less(now, b) {
      LessTransitive(now, b, a);
    }
    if Less(a, b) && Less(now, a) {
      LessTransitive(now, a, b);
    }
  }

  lemma EarlierBound(a: string, b: string, now: string)
    ensures !Less(PickEarlier(a, b), now) <==> !Less(a, now) && !Less(b, now)
  {
    LessTotal(a, b);
    if Less(a, b) && Less(b, now) {
      LessTransitive(a, b, now);
    }
    if Less(b, a) && Less(a, now) {
      LessTransitive(b, a, now);
    }
  }

  lemma IntersectSameExact(a: Constraint, b: Constraint, ctx: Context)
    requires SameKind(a, b) && Exact(a)
    ensures Exact(IntersectSame(a, b)) && SameKind(IntersectSame(a, b), a)
    ensures Satisfies(IntersectSame(a, b), ctx) <==> Satisfies(a, ctx) && Satisfies(b, ctx)
  {
    if a.TimeWindow? {
      EarlierBound(a.until, b.until, ctx.now);
      if a.from.Some? && b.from.Some? {
        LaterBound(a.from.value, b.from.value, ctx.now);
      }
    }
  }

  lemma AddExact(cs: seq<Constraint>, c: Constraint, ctx: Context)
    requires AllExact(cs) && Exact(c)
    ensures AllExact(Add(cs, c))
    ensures AllSatisfied(Add(cs, c), ctx) <==> AllSatisfied(cs, ctx) && Satisfies(c, ctx)
  {
    var after := Add(cs, c);
    match Find(cs, c)
    case Some(i) =>
      IntersectSameExact(cs[i], c, ctx);
      assert after[i] == IntersectSame(cs[i], c);
      assert forall j :: 0 <= j < |cs| && j != i ==> after[j] == cs[j];
      if AllSatisfied(after, ctx) {
        assert Satisfies(after[i], ctx);
        assert forall j :: 0 <= j < |cs| && j != i ==> Satisfies(after[j], ctx);
      }
    case None =>
      assert after[|cs|] == c && forall j :: 0 <= j < |cs| ==> after[j] == cs[j];
      if AllSatisfied(after, ctx) {
        assert Satisfies(after[|cs|], ctx);
        assert forall j :: 0 <= j < |cs| ==> Satisfies(after[j], ctx);
      }
  }

  /** On the exact kinds the intersection is satisfied exactly when both sides are. */
  lemma {:induction false} IntersectExact(a: seq<Constraint>, b: seq<Constraint>, ctx: Context)
    requires AllExact(a) && AllExact(b)
    ensures AllExact(Intersect(a, b))
    ensures AllSatisfied(Intersect(a, b), ctx) <==> AllSatisfied(a, ctx) && AllSatisfied(b, ctx)
    decreases b
  {
    if b != [] {
      AddExact(a, b[0], ctx);
      IntersectExact(Add(a, b[0]), b[1..], ctx);
      assert AllSatisfied(b, ctx) <==> Satisfies(b[0], ctx) && AllSatisfied(b[1..], ctx) by {
        assert forall i :: 0 <= i < |b| ==> b[i] == if i == 0 then b[0] else b[1..][i - 1];
        assert forall i :: 0 <= i < |b[1..]| ==> b[1..][i] == b[i + 1];
      }
    }
  }

  // ---------- Chains ----------

  datatype Redelegation = Redelegation(allowed: bool, maxDepth: Option<i64>)

  datatype Link = Link(constraints: Option<seq<Constraint>>, expiresAt: Option<string>,
                       redelegation: Option<Redelegation>)

  datatype Reason = RedelegationDisallowed | MaxDepthExceeded | LinkExpired(at: string)

  datatype Failure = Failure(brokenStep: nat, reason: Reason)

  datatype Walk = Walk(effective: seq<Constraint>, failure: Option<Failure>)

  function Own(l: Link): seq<Constraint> { if l.constraints.Some? then l.constraints.value else [] }

  predicate Expired(l: Link, now: string) { l.expiresAt.Some? && Less(l.expiresAt.value, now) }

  predicate Allows(l: Link) { l.redelegation.Some? ==> l.redelegation.value.allowed }

  const I64_MAX: i64 := 0x7fff_ffff_ffff_ffff

  function Limit(l: Link): i64 {
    if l.redelegation.Some? && l.redelegation.value.maxDepth.Some? then l.redelegation.value.maxDepth.value else I64_MAX
  }

  /** What stops the walk at link `i`, given what the links before it left. */
  function Obstacle(l: Link, i: nat, allow: bool, depth: i64, now: string): Option<Reason> {
    if i > 0 && !allow then Some(RedelegationDisallowed)
    else if i > 0 && depth <= 0 then Some(MaxDepthExceeded)
    else if Expired(l, now) then Some(LinkExpired(l.expiresAt.value))
    else None
  }

  function WalkFrom(chain: seq<Link>, i: nat, effective: seq<Constraint>, allow: bool, depth: i64, now: string): Walk
    requires i <= |chain|
    decreases |chain| - i
  {
    if i == |chain| then Walk(effective, None)
    else
      match Obstacle(chain[i], i, allow, depth, now)
      case Some(reason) => Walk(effective, Some(Failure(i, reason)))
      case None =>
        WalkFrom(chain, i + 1, Intersect(effective, Own(chain[i])), Allows(chain[i]),
                 MinI64(if i > 0 then depth - 1 else depth, Limit(chain[i])), now)
  }

  function WalkOf(chain: seq<Link>, now: string): Walk { WalkFrom(chain, 0, [], true, I64_MAX, now) }

  /** `intersect_constraints`. */
  method IntersectConstraints(a: seq<Constraint>, b: seq<Constraint>) returns (out: seq<Constraint>)
    ensures out == Intersect(a, b)
  {
    out := a;
    var k := 0;
    while k < |b|
      invariant 0 <= k <= |b|
      invariant Intersect(out, b[k..]) == Intersect(a, b)
    {
      assert b[k..][0] == b[k] && b[k..][1..] == b[k + 1..];
      var idx := Find(out, b[k]);
      match idx {
        case Some(i) => out := out[i := IntersectSame(out[i], b[k])];
        case None => out := out + [b[k]];
      }
      k := k + 1;
    }
  }

  /** `walk_chain`. */
  method WalkChain(chain: seq<Link>, now: string) returns (w: Walk)
    ensures w == WalkOf(chain, now)
    ensures OneOfEachKind(w.effective)
  {
    hide Intersect, Less;
    WalkKeepsKinds(chain, 0, [], true, I64_MAX, now);
    var effective: seq<Constraint> := [];
    var allowRedelegation := true;
    var maxDepthRemaining: i64 := I64_MAX;
    var i := 0;
    while i < |chain|
      invariant 0 <= i <= |chain|
      invariant WalkFrom(chain, i, effective, allowRedelegation, maxDepthRemaining, now) == WalkOf(chain, now)
    {
      var step := chain[i];
      if i > 0 {
        if !allowRedelegation {
          return Walk(effective, Some(Failure(i, RedelegationDisallowed)));
        }
        if maxDepthRemaining <= 0 {
          return Walk(effective, Some(Failure(i, MaxDepthExceeded)));
        }
        maxDepthRemaining := maxDepthRemaining - 1;
      }
      if step.expiresAt.Some? {
        if Less(step.expiresAt.value, now) {
          return Walk(effective, Some(Failure(i, LinkExpired(step.expiresAt.value))));
        }
      }
      IntersectNothing(effective);
      if step.constraints.Some? {
        if |step.constraints.value| > 0 {
          effective := IntersectConstraints(effective, step.constraints.value);
        }
      }
      if step.redelegation.Some? {
        allowRedelegation := step.redelegation.value.allowed;
        if step.redelegation.value.maxDepth.Some? {
          maxDepthRemaining := MinI64(maxDepthRemaining, step.redelegation.value.maxDepth.value);
        }
      } else {
        allowRedelegation := true;
      }
      i := i + 1;
    }
    w := Walk(effective, None);
  }

  lemma IntersectNothing(a: seq<Constraint>)
    ensures Intersect(a, []) == a
  {
  }

  // ---------- When a chain is valid ----------

  /** A link permits `after` more links behind it. */
  predicate Permits(l: Link, after: nat) {
    Allows(l) && Limit(l) >= after
  }

  /** No link has expired, and every link permits all the links after it. */
  predicate SoundFrom(chain: seq<Link>, from: nat, now: string) {
    forall i :: from <= i < |chain| ==>
      !Expired(chain[i], now) && (i + 1 < |chain| ==> Permits(chain[i], |chain| - 1 - i))
  }

  lemma {:induction false} WalkFromValid(chain: seq<Link>, i: nat, effective: seq<Constraint>, allow: bool,
                                         depth: i64, now: string)
    requires 1 <= i <= |chain| <= I64_MAX
    ensures WalkFrom(chain, i, effective, allow, depth, now).failure.None? <==>
            (i < |chain| ==> allow && depth >= |chain| - i) && SoundFrom(chain, i, now)
    decreases |chain| - i
  {
    hide Intersect, Less, Expired;
    if i < |chain| && Obstacle(chain[i], i, allow, depth, now).None? {
      WalkFromValid(chain, i + 1, Intersect(effective, Own(chain[i])), Allows(chain[i]),
                    MinI64(depth - 1, Limit(chain[i])), now);
    }
  }

  /**
   * A chain is valid exactly when no link has expired and every link but the last allows
   * redelegation to at least as many links as follow it.
   */
  lemma ChainValidity(chain: seq<Link>, now: string)
    requires |chain| <= I64_MAX
    ensures WalkOf(chain, now).failure.None? <==>
            forall i :: 0 <= i < |chain| ==>
              && !Expired(chain[i], now)
              && (i + 1 < |chain| ==> Permits(chain[i], |chain| - 1 - i))
  {
    hide Intersect, Less, Expired;
    if |chain| > 0 && Obstacle(chain[0], 0, true, I64_MAX, now).None? {
      WalkFromValid(chain, 1, Intersect([], Own(chain[0])), Allows(chain[0]), MinI64(I64_MAX, Limit(chain[0])), now);
    }
  }

  lemma {:induction false} WalkKeepsKinds(chain: seq<Link>, i: nat, effective: seq<Constraint>, allow: bool,
                                          depth: i64, now: string)
    requires i <= |chain| && OneOfEachKind(effective)
    ensures OneOfEachKind(WalkFrom(chain, i, effective, allow, depth, now).effective)
    decreases |chain| - i
  {
    hide Intersect, Less;
    if i < |chain| && Obstacle(chain[i], i, allow, depth, now).None? {
      IntersectKeepsKinds(effective, Own(chain[i]));
      WalkKeepsKinds(chain, i + 1, Intersect(effective, Own(chain[i])), Allows(chain[i]),
                     MinI64(if i > 0 then depth - 1 else depth, Limit(chain[i])), now);
    }
  }

  ghost predicate LinksSatisfied(chain: seq<Link>, from: nat, ctx: Context) {
    forall i :: from <= i < |chain| ==> AllSatisfied(Own(chain[i]), ctx)
  }

  lemma {:induction false} WalkFromEffective(chain: seq<Link>, i: nat, effective: seq<Constraint>, allow: bool,
                                             depth: i64, now: string, ctx: Context)
    requires i <= |chain| && AllExact(effective)
    requires forall k :: i <= k < |chain| ==> AllExact(Own(chain[k]))
    requires WalkFrom(chain, i, effective, allow, depth, now).failure.None?
    ensures AllSatisfied(WalkFrom(chain, i, effective, allow, depth, now).effective, ctx) <==>
            AllSatisfied(effective, ctx) && LinksSatisfied(chain, i, ctx)
    decreases |chain| - i
  {
    hide Intersect, Less, AllSatisfied, AllExact, Own;
    if i < |chain| {
      IntersectExact(effective, Own(chain[i]), ctx);
      WalkFromEffective(chain, i + 1, Intersect(effective, Own(chain[i])), Allows(chain[i]),
                        MinI64(if i > 0 then depth - 1 else depth, Limit(chain[i])), now, ctx);
    }
  }

  /**
   * Along a valid chain of time-window, quantity, rate and quorum constraints the effective set is
   * satisfied exactly when every link's own constraints are, and holds each kind at most once.
   */
  lemma EffectiveConstraints(chain: seq<Link>, now: string, ctx: Context)
    requires forall i :: 0 <= i < |chain| ==> AllExact(Own(chain[i]))
    requires WalkOf(chain, now).failure.None?
    ensures AllSatisfied(WalkOf(chain, now).effective, ctx) <==>
      forall i :: 0 <= i < |chain| ==> AllSatisfied(Own(chain[i]), ctx)
    ensures OneOfEachKind(WalkOf(chain, now).effective)
  {
    WalkFromEffective(chain, 0, [], true, I64_MAX, now, ctx);
    WalkKeepsKinds(chain, 0, [], true, I64_MAX, now);
  }

  // ---------- Where a chain breaks ----------

  lemma {:induction false} WalkPrefix(chain: seq<Link>, n: nat, i: nat, effective: seq<Constraint>, allow: bool,
                                      depth: i64, now: string)
    requires i <= n <= |chain|
    ensures
      var whole, part := WalkFrom(chain, i, effective, allow, depth, now),
        WalkFrom(chain[..n], i, effective, allow, depth, now);
      if whole.failure.Some? && whole.failure.value.brokenStep < n then part == whole else part.failure.None?
    decreases n - i
  {
    hide Intersect, Less;
    if i < n {
      assert chain[..n][i] == chain[i];
      if Obstacle(chain[i], i, allow, depth, now).None? {
        WalkPrefix(chain, n, i + 1, Intersect(effective, Own(chain[i])), Allows(chain[i]),
                   MinI64(if i > 0 then depth - 1 else depth, Limit(chain[i])), now);
      }
    } else {
      BrokenStepBound(chain, i, effective, allow, depth, now);
    }
  }

  lemma {:induction false} BrokenStepBound(chain: seq<Link>, i: nat, effective: seq<Constraint>, allow: bool,
                                           depth: i64, now: string)
    requires i <= |chain|
    ensures var w := WalkFrom(chain, i, effective, allow, depth, now);
            w.failure.Some? ==> i <= w.failure.value.brokenStep < |chain|
    decreases |chain| - i
  {
    hide Intersect, Less;
    if i < |chain| && Obstacle(chain[i], i, allow, depth, now).None? {
      BrokenStepBound(chain, i + 1, Intersect(effective, Own(chain[i])), Allows(chain[i]),
                      MinI64(if i > 0 then depth - 1 else depth, Limit(chain[i])), now);
    }
  }

  /** The broken step is the first link whose addition makes the chain invalid. */
  lemma BrokenStepIsFirst(chain: seq<Link>, now: string)
    requires WalkOf(chain, now).failure.Some?
    ensures
      var k := WalkOf(chain, now).failure.value.brokenStep;
      && k < |chain|
      && WalkOf(chain[..k + 1], now).failure.Some?
      && forall n :: 0 <= n <= k ==> WalkOf(chain[..n], now).failure.None?
  {
    BrokenStepBound(chain, 0, [], true, I64_MAX, now);
    var k := WalkOf(chain, now).failure.value.brokenStep;
    WalkPrefix(chain, k + 1, 0, [], true, I64_MAX, now);
    forall n | 0 <= n <= k ensures WalkOf(chain[..n], now).failure.None? {
      WalkPrefix(chain, n, 0, [], true, I64_MAX, now);
    }
  }

  // ---------- The kinds whose intersection is not exact ----------

  /** Session constraints intersect exactly only when they name the same session: otherwise the first one wins. */
  lemma SessionExactness(a: string, b: string)
    ensures
      a == b <==>
      forall ctx: Context :: Satisfies(IntersectSame(Session(a), Session(b)), ctx) <==>
                             Satisfies(Session(a), ctx) && Satisfies(Session(b), ctx)
  {
    var ctx := Context("", Some(a), None, None, None);
    assert Satisfies(Session(a), ctx);
    assert a != b ==> !Satisfies(Session(b), ctx);
  }

  lemma {:induction false} SharedMembers(a: seq<string>, b: seq<string>, p: string)
    ensures p in Shared(a, b) <==> p in a && p in b
  {
    if a != [] {
      SharedMembers(a[1..], b, p);
      assert a == [a[0]] + a[1..];
    }
  }

  /**
   * Targets that share a pattern intersect to something no wider than either; targets that share none
   * intersect to their union.
   */
  lemma TargetUnion(a: seq<string>, b: seq<string>, ctx: Context)
    ensures var both := Satisfies(IntersectSame(Target(a), Target(b)), ctx);
      if Shared(a, b) == [] then both <==> Satisfies(Target(a), ctx) || Satisfies(Target(b), ctx)
      else both ==> Satisfies(Target(a), ctx) && Satisfies(Target(b), ctx)
  {
    hide Glob.Accepts, Shared;
    forall p ensures p in Shared(a, b) <==> p in a && p in b {
      SharedMembers(a, b, p);
    }
    assert forall p :: p in a + b <==> p in a || p in b;
  }

  /** A target that one of the patterns accepts. */
  ghost predicate Hits(ps: seq<string>, target: string) { exists p :: p in ps && Glob.Accepts(p, target) }

  ghost predicate TargetsConjoin(a: seq<string>, b: seq<string>, ctx: Context) {
    Satisfies(IntersectSame(Target(a), Target(b)), ctx) <==> Satisfies(Target(a), ctx) && Satisfies(Target(b), ctx)
  }

  /** What the intersection of target constraints has to do for one target to be their conjunction. */
  ghost predicate TargetFits(a: seq<string>, b: seq<string>, target: string) {
    if Shared(a, b) == [] then Hits(a, target) <==> Hits(b, target)
    else Hits(a, target) && Hits(b, target) ==> Hits(Shared(a, b), target)
  }

  lemma TargetsConjoinAt(a: seq<string>, b: seq<string>, ctx: Context)
    ensures TargetsConjoin(a, b, ctx) <==> ctx.target.None? || TargetFits(a, b, ctx.target.value)
  {
    TargetUnion(a, b, ctx);
    hide Glob.Accepts, Shared;
  }

  /**
   * Target constraints intersect exactly when, sharing no pattern, both sides accept the same
   * targets, and otherwise when every target both accept is accepted by a shared pattern.
   */
  lemma TargetExactness(a: seq<string>, b: seq<string>)
    ensures (forall ctx: Context :: TargetsConjoin(a, b, ctx)) <==> forall target :: TargetFits(a, b, target)
  {
    hide TargetsConjoin, TargetFits;
    forall ctx: Context
      ensures TargetsConjoin(a, b, ctx) <==> ctx.target.None? || TargetFits(a, b, ctx.target.value)
    {
      TargetsConjoinAt(a, b, ctx);
    }
    forall target | forall ctx: Context :: TargetsConjoin(a, b, ctx) ensures TargetFits(a, b, target) {
      assert TargetsConjoin(a, b, Context("", None, Some(target), None, None));
    }
  }

  predicate StarFree(ps: seq<string>) { forall i :: 0 <= i < |ps| ==> '*' !in ps[i] }

  lemma LiteralHits(ps: seq<string>, target: string)
    requires StarFree(ps)
    ensures Hits(ps, target) <==> target in ps
  {
    hide Glob.Accepts;
    forall p | p in ps ensures Glob.Accepts(p, target) <==> target == p {
      Glob.LiteralPattern(p, target);
    }
  }

  lemma LiteralFits(a: seq<string>, b: seq<string>, target: string)
    requires StarFree(a) && StarFree(b)
    ensures TargetFits(a, b, target) <==> Shared(a, b) != [] || (target !in a && target !in b)
  {
    hide Shared, Hits;
    forall p ensures p in Shared(a, b) <==> p in a && p in b {
      SharedMembers(a, b, p);
    }
    forall i | 0 <= i < |Shared(a, b)| ensures '*' !in Shared(a, b)[i] {
      assert Shared(a, b)[i] in a;
    }
    LiteralHits(a, target);
    LiteralHits(b, target);
    LiteralHits(Shared(a, b), target);
  }

  /** Star-free targets intersect exactly when they share a pattern, or when neither has any. */
  lemma LiteralTargetExactness(a: seq<string>, b: seq<string>)
    requires StarFree(a) && StarFree(b)
    ensures (forall ctx: Context :: TargetsConjoin(a, b, ctx)) <==> Shared(a, b) != [] || (a == [] && b == [])
  {
    TargetExactness(a, b);
    hide TargetFits, TargetsConjoin, Shared, StarFree;
    forall target ensures TargetFits(a, b, target) <==> Shared(a, b) != [] || (target !in a && target !in b) {
      LiteralFits(a, b, target);
    }
    if a + b != [] {
      var target := (a + b)[0];
      assert target in a + b;
      assert TargetFits(a, b, target) <==> Shared(a, b) != [];
    }
  }

  /** Device bindings intersect exactly only when they name the same device. */
  lemma DeviceExactness(a: string, b: string)
    ensures
      a == b <==>
      forall ctx: Context :: Satisfies(IntersectSame(DeviceBinding(a), DeviceBinding(b)), ctx) <==>
                             Satisfies(DeviceBinding(a), ctx) && Satisfies(DeviceBinding(b), ctx)
  {
    var ctx := Context("", None, None, None, Some(a));
    assert Satisfies(DeviceBinding(a), ctx);
    assert a != b ==> !Satisfies(DeviceBinding(b), ctx);
  }

  /** An approval requirement that a session meets by itself. */
  predicate Lenient(a: ApprovalRequirement) { a.NoApproval? || a.Conditional? }

  /** Approval requirements intersect exactly unless the first is lenient and the second, which is dropped, is not. */
  lemma ApprovalExactness(a: ApprovalRequirement, b: ApprovalRequirement)
    ensures
      (Lenient(a) ==> Lenient(b)) <==>
      forall ctx: Context :: Satisfies(IntersectSame(Approval(a), Approval(b)), ctx) <==>
                             Satisfies(Approval(a), ctx) && Satisfies(Approval(b), ctx)
  {
    var ctx := Context("", None, None, None, None);
    assert Satisfies(Approval(a), ctx) <==> Lenient(a);
    assert Satisfies(Approval(b), ctx) <==> Lenient(b);
  }
}
