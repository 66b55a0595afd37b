/** What intersecting constraints gives, kind by kind, told from the constraints that went in. */
module DelegationLimits {
  import opened Common
  import opened Delegation

  // ---------- The reference ----------

  /** Where the kind of `like` first occurs; the length if it does not. */
  function FirstAt(cs: seq<Constraint>, like: Constraint): (n: nat)
    ensures n <= |cs| && (n < |cs| ==> SameKind(cs[n], like))
  {
    if cs == [] || SameKind(cs[0], like) then 0 else 1 + FirstAt(cs[1..], like)
  }

  /** The unit of the first quantity that has one. */
  function FirstUnit(cs: seq<Constraint>): Option<string> {
    if cs == [] then None
    else if cs[0].Quantity? && cs[0].unit.Some? then cs[0].unit
    else FirstUnit(cs[1..])
  }

  predicate SmallestAmount(x: int, cs: seq<Constraint>) {
    && (exists i :: 0 <= i < |cs| && cs[i].Quantity? && cs[i].max == x)
    && (forall i :: 0 <= i < |cs| && cs[i].Quantity? ==> x <= cs[i].max)
  }

  predicate FewestCalls(x: int, cs: seq<Constraint>) {
    && (exists i :: 0 <= i < |cs| && cs[i].Rate? && cs[i].maxPerWindow == x)
    && (forall i :: 0 <= i < |cs| && cs[i].Rate? ==> x <= cs[i].maxPerWindow)
  }

  predicate ShortestWindow(x: int, cs: seq<Constraint>) {
    && (exists i :: 0 <= i < |cs| && cs[i].Rate? && cs[i].windowSeconds == x)
    && (forall i :: 0 <= i < |cs| && cs[i].Rate? ==> x <= cs[i].windowSeconds)
  }

  predicate LargestQuorum(x: int, cs: seq<Constraint>) {
    && (exists i :: 0 <= i < |cs| && cs[i].Quorum? && cs[i].quorum == x)
    && (forall i :: 0 <= i < |cs| && cs[i].Quorum? ==> cs[i].quorum <= x)
  }

  predicate EarliestEnd(x: string, cs: seq<Constraint>) {
    && (exists i :: 0 <= i < |cs| && cs[i].TimeWindow? && cs[i].until == x)
    && (forall i :: 0 <= i < |cs| && cs[i].TimeWindow? ==> !Less(cs[i].until, x))
  }

  predicate LatestStart(x: Option<string>, cs: seq<Constraint>) {
    && (x.Some? ==> exists i :: 0 <= i < |cs| && cs[i].TimeWindow? && cs[i].from == x)
    && (forall i :: 0 <= i < |cs| && cs[i].TimeWindow? && cs[i].from.Some? ==>
          x.Some? && !Less(x.value, cs[i].from.value))
  }

  /** What the constraints of one kind come to. */
  predicate Totals(e: Constraint, cs: seq<Constraint>) {
    && FirstAt(cs, e) < |cs|
    && match e
       case Quantity(max, unit) => SmallestAmount(max, cs) && unit == FirstUnit(cs)
       case Rate(calls, seconds) => FewestCalls(calls, cs) && ShortestWindow(seconds, cs)
       case Quorum(quorum, approvers) => LargestQuorum(quorum, cs) && approvers == cs[FirstAt(cs, e)].approvers
       case TimeWindow(from, until) => LatestStart(from, cs) && EarliestEnd(until, cs)
       case Target(_) => true
       case _ => e == cs[FirstAt(cs, e)]
  }

  predicate Has(es: seq<Constraint>, like: Constraint) { exists j :: 0 <= j < |es| && SameKind(es[j], like) }

  predicate Ordered(es: seq<Constraint>, cs: seq<Constraint>) {
    forall i, j :: 0 <= i < j < |es| ==> FirstAt(cs, es[i]) < FirstAt(cs, es[j])
  }

  /** One constraint for every kind that occurs, in the order in which the kinds first occur. */
  predicate Sums(es: seq<Constraint>, cs: seq<Constraint>) {
    && (forall i :: 0 <= i < |cs| ==> Has(es, cs[i]))
    && Ordered(es, cs)
    && (forall i :: 0 <= i < |es| ==> Totals(es[i], cs))
  }

  // ---------- One more constraint ----------

  lemma {:induction false} FirstAtSnoc(cs: seq<Constraint>, c: Constraint, like: Constraint)
    ensures FirstAt(cs + [c], like) ==
      if FirstAt(cs, like) < |cs| then FirstAt(cs, like) else if SameKind(c, like) then |cs| else |cs| + 1
  {
    if cs != [] {
      assert (cs + [c])[1..] == cs[1..] + [c] && (cs + [c])[0] == cs[0];
      FirstAtSnoc(cs[1..], c, like);
    } else {
      assert (cs + [c])[1..] == [];
    }
  }

  lemma {:induction false} FirstUnitSnoc(cs: seq<Constraint>, c: Constraint)
    ensures FirstUnit(cs + [c]) ==
      if FirstUnit(cs).Some? then FirstUnit(cs) else if c.Quantity? then c.unit else None
  {
    if cs != [] {
      assert (cs + [c])[1..] == cs[1..] + [c] && (cs + [c])[0] == cs[0];
      FirstUnitSnoc(cs[1..], c);
    } else {
      assert (cs + [c])[1..] == [];
    }
  }

  lemma {:induction false} FirstAtKind(cs: seq<Constraint>, a: Constraint, b: Constraint)
    requires SameKind(a, b)
    ensures FirstAt(cs, a) == FirstAt(cs, b)
  {
    if cs != [] {
      FirstAtKind(cs[1..], a, b);
    }
  }

  /** A constraint of another kind changes nothing. */
  lemma OtherKind(e: Constraint, cs: seq<Constraint>, c: Constraint)
    requires Totals(e, cs) && !SameKind(e, c)
    ensures Totals(e, cs + [c]) && FirstAt(cs + [c], e) == FirstAt(cs, e)
  {
    FirstAtSnoc(cs, c, e);
    FirstUnitSnoc(cs, c);
    hide FirstAt, FirstUnit, Less;
    var all := cs + [c];
    assert all[|cs|] == c && forall i :: 0 <= i < |cs| ==> all[i] == cs[i];
  }

  lemma SameQuantity(e: Constraint, cs: seq<Constraint>, c: Constraint)
    requires Totals(e, cs) && e.Quantity? && c.Quantity?
    ensures Totals(IntersectSame(e, c), cs + [c])
  {
    FirstAtSnoc(cs, c, IntersectSame(e, c));
    FirstAtKind(cs, e, IntersectSame(e, c));
    FirstUnitSnoc(cs, c);
    hide FirstAt, FirstUnit;
    var all := cs + [c];
    assert all[|cs|] == c && forall i :: 0 <= i < |cs| ==> all[i] == cs[i];
    assert SmallestAmount(IntersectSame(e, c).max, all);
  }

  lemma SameRate(e: Constraint, cs: seq<Constraint>, c: Constraint)
    requires Totals(e, cs) && e.Rate? && c.Rate?
    ensures Totals(IntersectSame(e, c), cs + [c])
  {
    FirstAtSnoc(cs, c, IntersectSame(e, c));
    FirstAtKind(cs, e, IntersectSame(e, c));
    hide FirstAt;
    var all := cs + [c];
    assert all[|cs|] == c && forall i :: 0 <= i < |cs| ==> all[i] == cs[i];
    assert FewestCalls(IntersectSame(e, c).maxPerWindow, all);
    assert ShortestWindow(IntersectSame(e, c).windowSeconds, all);
  }

  lemma SameQuorum(e: Constraint, cs: seq<Constraint>, c: Constraint)
    requires Totals(e, cs) && e.Quorum? && c.Quorum?
    ensures Totals(IntersectSame(e, c), cs + [c])
  {
    FirstAtSnoc(cs, c, IntersectSame(e, c));
    FirstAtKind(cs, e, IntersectSame(e, c));
    hide FirstAt;
    var all := cs + [c];
    assert all[|cs|] == c && forall i :: 0 <= i < |cs| ==> all[i] == cs[i];
    assert LargestQuorum(IntersectSame(e, c).quorum, all);
  }

  /** The earlier of two ends is no later than any that neither is later than. */
  lemma EarlierOfAll(a: string, b: string, x: string)
    ensures !Less(a, PickEarlier(a, b)) && !Less(b, PickEarlier(a, b))
    ensures !Less(x, a) ==> !Less(x, PickEarlier(a, b))
  {
    LessTotal(a, b);
    if Less(a, b) {
      LessAsymmetric(a, b);
    } else {
      if Less(x, b) && b != a {
        LessTransitive(x, b, a);
      }
    }
    NeverBeforeItself(a);
    NeverBeforeItself(b);
  }

  lemma {:induction false} NeverBeforeItself(s: string)
    ensures !Less(s, s)
  {
    if s != [] {
      NeverBeforeItself(s[1..]);
    }
  }

  lemma LaterOfAll(a: string, b: string, x: string)
    ensures var later := if Less(b, a) then a else b;
      !Less(later, a) && !Less(later, b) && (!Less(a, x) ==> !Less(later, x))
  {
    LessTotal(a, b);
    if Less(b, a) {
      LessAsymmetric(b, a);
    } else {
      if Less(b, x) && b != a {
        LessTransitive(a, b, x);
      }
    }
    NeverBeforeItself(a);
    NeverBeforeItself(b);
  }

  lemma SameEnd(e: Constraint, cs: seq<Constraint>, c: Constraint)
    requires e.TimeWindow? && c.TimeWindow? && EarliestEnd(e.until, cs)
    ensures EarliestEnd(IntersectSame(e, c).until, cs + [c])
  {
    var all, x := cs + [c], IntersectSame(e, c).until;
    assert all[|cs|] == c && forall i :: 0 <= i < |cs| ==> all[i] == cs[i];
    hide Less;
    forall i | 0 <= i < |all| && all[i].TimeWindow? ensures !Less(all[i].until, x) {
      EarlierOfAll(e.until, c.until, all[i].until);
    }
    var k :| 0 <= k < |cs| && cs[k].TimeWindow? && cs[k].until == e.until;
    assert x == all[k].until || x == all[|cs|].until;
  }

  lemma SameStart(e: Constraint, cs: seq<Constraint>, c: Constraint)
    requires e.TimeWindow? && c.TimeWindow? && LatestStart(e.from, cs)
    ensures LatestStart(IntersectSame(e, c).from, cs + [c])
  {
    var all, x := cs + [c], IntersectSame(e, c).from;
    assert all[|cs|] == c && forall i :: 0 <= i < |cs| ==> all[i] == cs[i];
    hide Less;
    forall i | 0 <= i < |all| && all[i].TimeWindow? && all[i].from.Some?
      ensures x.Some? && !Less(x.value, all[i].from.value)
    {
      if e.from.Some? && c.from.Some? {
        LaterOfAll(e.from.value, c.from.value, all[i].from.value);
      } else {
        NeverBeforeItself(all[i].from.value);
      }
    }
    if e.from.Some? {
      var k :| 0 <= k < |cs| && cs[k].TimeWindow? && cs[k].from == e.from;
      assert all[k].from == e.from;
    }
    assert x.Some? ==> x == e.from || x == all[|cs|].from;
  }

  lemma SameWindow(e: Constraint, cs: seq<Constraint>, c: Constraint)
    requires Totals(e, cs) && e.TimeWindow? && c.TimeWindow?
    ensures Totals(IntersectSame(e, c), cs + [c])
  {
    FirstAtSnoc(cs, c, IntersectSame(e, c));
    FirstAtKind(cs, e, IntersectSame(e, c));
    SameStart(e, cs, c);
    SameEnd(e, cs, c);
    hide FirstAt, LatestStart, EarliestEnd, PickLater, PickEarlier;
  }

  lemma SameOther(e: Constraint, cs: seq<Constraint>, c: Constraint)
    requires Totals(e, cs) && SameKind(e, c) && (e.Target? || e.Session? || e.Approval? || e.DeviceBinding?)
    ensures Totals(IntersectSame(e, c), cs + [c])
  {
    FirstAtSnoc(cs, c, IntersectSame(e, c));
    FirstAtKind(cs, e, IntersectSame(e, c));
    hide FirstAt, Shared;
  }

  lemma SameKindTotals(e: Constraint, cs: seq<Constraint>, c: Constraint)
    requires Totals(e, cs) && SameKind(e, c)
    ensures Totals(IntersectSame(e, c), cs + [c]) && SameKind(IntersectSame(e, c), e)
    ensures FirstAt(cs + [c], IntersectSame(e, c)) == FirstAt(cs, e)
  {
    FirstAtSnoc(cs, c, IntersectSame(e, c));
    FirstAtKind(cs, e, IntersectSame(e, c));
    assert SameKind(IntersectSame(e, c), e) && FirstAt(cs, e) < |cs|;
    hide Totals, FirstAt, IntersectSame;
    match e
    case Quantity(_, _) => SameQuantity(e, cs, c);
    case Rate(_, _) => SameRate(e, cs, c);
    case Quorum(_, _) => SameQuorum(e, cs, c);
    case TimeWindow(_, _) => SameWindow(e, cs, c);
    case _ => SameOther(e, cs, c);
  }

  lemma LoneWindow(cs: seq<Constraint>, c: Constraint)
    requires c.TimeWindow? && forall i :: 0 <= i < |cs| ==> !SameKind(cs[i], c)
    ensures LatestStart(c.from, cs + [c]) && EarliestEnd(c.until, cs + [c])
  {
    NeverBeforeItself(c.until);
    if c.from.Some? {
      NeverBeforeItself(c.from.value);
    }
    hide Less;
    var all := cs + [c];
    assert all[|cs|] == c && forall i :: 0 <= i < |cs| ==> all[i] == cs[i];
  }

  lemma LoneNumbers(cs: seq<Constraint>, c: Constraint)
    requires forall i :: 0 <= i < |cs| ==> !SameKind(cs[i], c)
    ensures c.Quantity? ==> SmallestAmount(c.max, cs + [c])
    ensures c.Rate? ==> FewestCalls(c.maxPerWindow, cs + [c]) && ShortestWindow(c.windowSeconds, cs + [c])
    ensures c.Quorum? ==> LargestQuorum(c.quorum, cs + [c])
  {
    var all := cs + [c];
    assert all[|cs|] == c && forall i :: 0 <= i < |cs| ==> all[i] == cs[i];
  }

  /** The first of its kind stands for itself. */
  lemma FirstOfKind(cs: seq<Constraint>, c: Constraint)
    requires forall i :: 0 <= i < |cs| ==> !SameKind(cs[i], c)
    ensures Totals(c, cs + [c]) && FirstAt(cs + [c], c) == |cs|
  {
    FirstAtSnoc(cs, c, c);
    LoneNumbers(cs, c);
    hide FirstAt, FirstUnit, SmallestAmount, FewestCalls, ShortestWindow, LargestQuorum, LatestStart, EarliestEnd;
    assert (cs + [c])[|cs|] == c;
    if c.Quantity? {
      FirstUnitSnoc(cs, c);
      NoUnit(cs);
    } else if c.TimeWindow? {
      LoneWindow(cs, c);
    }
  }

  lemma {:induction false} NoUnit(cs: seq<Constraint>)
    requires forall i :: 0 <= i < |cs| ==> !cs[i].Quantity?
    ensures FirstUnit(cs) == None
  {
    if cs != [] {
      NoUnit(cs[1..]);
    }
  }

  // ---------- Whole lists and whole chains ----------

  lemma KindOnce(es: seq<Constraint>, cs: seq<Constraint>, i: nat, j: nat, c: Constraint)
    requires Sums(es, cs) && i < |es| && j < |es| && SameKind(es[i], c) && SameKind(es[j], c)
    ensures i == j
  {
    KindTransitive(es[i], c, es[j]);
    KindTransitive(es[j], c, es[i]);
    FirstAtKind(cs, es[i], es[j]);
    hide FirstAt, Totals, Has;
  }

  lemma KindTransitive(a: Constraint, b: Constraint, c: Constraint)
    requires SameKind(a, b)
    ensures SameKind(b, a) && (SameKind(b, c) <==> SameKind(a, c))
  {
  }

  lemma HasAt(es: seq<Constraint>, j: nat, like: Constraint)
    requires j < |es| && SameKind(es[j], like)
    ensures Has(es, like)
  {
    hide SameKind;
  }

  lemma KnownHas(es: seq<Constraint>, k: nat, e: Constraint, like: Constraint)
    requires k < |es| && SameKind(e, es[k]) && Has(es, like)
    ensures Has(es[k := e], like)
  {
    hide SameKind;
    var j :| 0 <= j < |es| && SameKind(es[j], like);
    if j == k {
      KindTransitive(e, es[k], like);
    }
    HasAt(es[k := e], j, like);
  }

  lemma KnownTotals(es: seq<Constraint>, cs: seq<Constraint>, c: Constraint, k: nat, i: nat)
    requires Sums(es, cs) && k < |es| && SameKind(es[k], c) && i < |es|
    ensures var e := es[k := IntersectSame(es[k], c)][i];
      Totals(e, cs + [c]) && FirstAt(cs + [c], e) == FirstAt(cs, es[i])
  {
    assert Totals(es[k], cs) && Totals(es[i], cs);
    hide FirstAt, Totals, IntersectSame, SameKind;
    if i == k {
      SameKindTotals(es[k], cs, c);
    } else {
      if SameKind(es[i], c) {
        KindOnce(es, cs, i, k, c);
      }
      OtherKind(es[i], cs, c);
    }
  }

  lemma KindReflexive(c: Constraint)
    ensures SameKind(c, c)
  {
  }

  lemma OrderKept(es: seq<Constraint>, cs: seq<Constraint>, after: seq<Constraint>, all: seq<Constraint>)
    requires Ordered(es, cs) && |after| == |es|
    requires forall i :: 0 <= i < |es| ==> FirstAt(all, after[i]) == FirstAt(cs, es[i])
    ensures Ordered(after, all)
  {
    hide FirstAt;
  }

  lemma OrderGrows(es: seq<Constraint>, cs: seq<Constraint>, c: Constraint, all: seq<Constraint>)
    requires Ordered(es, cs) && FirstAt(all, c) == |cs|
    requires forall i :: 0 <= i < |es| ==> FirstAt(all, (es + [c])[i]) == FirstAt(cs, es[i]) < |cs|
    ensures Ordered(es + [c], all)
  {
    hide FirstAt;
  }

  /** Adding to a kind that is there. */
  lemma AddKnown(es: seq<Constraint>, cs: seq<Constraint>, c: Constraint, k: nat)
    requires Sums(es, cs) && k < |es| && SameKind(es[k], c)
    ensures Sums(es[k := IntersectSame(es[k], c)], cs + [c])
  {
    hide FirstAt, Totals, IntersectSame, SameKind, Has, Ordered;
    var all, after := cs + [c], es[k := IntersectSame(es[k], c)];
    SumsTotals(es, cs, k);
    SameKindTotals(es[k], cs, c);
    forall i | 0 <= i < |es| ensures Totals(after[i], all) && FirstAt(all, after[i]) == FirstAt(cs, es[i]) {
      KnownTotals(es, cs, c, k, i);
    }
    OrderKept(es, cs, after, all);
    forall i | 0 <= i < |all| ensures Has(after, all[i]) {
      if i < |cs| {
        KnownHas(es, k, after[k], cs[i]);
      } else {
        KindTransitive(after[k], es[k], c);
        HasAt(after, k, c);
      }
    }
  }

  lemma FoundBefore(e: Constraint, cs: seq<Constraint>)
    requires Totals(e, cs)
    ensures FirstAt(cs, e) < |cs|
  {
  }

  lemma NoneBefore(es: seq<Constraint>, cs: seq<Constraint>, c: Constraint, i: nat)
    requires Sums(es, cs) && i < |cs| && forall j :: 0 <= j < |es| ==> !SameKind(es[j], c)
    ensures !SameKind(cs[i], c)
  {
    hide FirstAt, Totals, SameKind;
    assert Has(es, cs[i]);
    var j :| 0 <= j < |es| && SameKind(es[j], cs[i]);
    KindTransitive(es[j], cs[i], c);
  }

  /** Adding a kind that is not there yet. */
  lemma AddNew(es: seq<Constraint>, cs: seq<Constraint>, c: Constraint)
    requires Sums(es, cs) && forall i :: 0 <= i < |es| ==> !SameKind(es[i], c)
    ensures Sums(es + [c], cs + [c])
  {
    hide FirstAt, Totals, SameKind, Has, Ordered;
    var all, after := cs + [c], es + [c];
    forall i | 0 <= i < |cs| ensures !SameKind(cs[i], c) {
      NoneBefore(es, cs, c, i);
    }
    KindReflexive(c);
    FirstOfKind(cs, c);
    forall i | 0 <= i < |es| ensures Totals(after[i], all) && FirstAt(all, after[i]) == FirstAt(cs, es[i]) < |cs| {
      SumsTotals(es, cs, i);
      OtherKind(es[i], cs, c);
      FoundBefore(es[i], cs);
    }
    OrderGrows(es, cs, c, all);
    forall i | 0 <= i < |all| ensures Has(after, all[i]) {
      if i < |cs| {
        NewHas(es, c, cs[i]);
      } else {
        HasAt(after, |es|, c);
      }
    }
  }

  lemma NewHas(es: seq<Constraint>, c: Constraint, like: Constraint)
    requires Has(es, like)
    ensures Has(es + [c], like)
  {
    hide SameKind;
    var j :| 0 <= j < |es| && SameKind(es[j], like);
    HasAt(es + [c], j, like);
  }

  lemma {:induction false} IntersectSums(es: seq<Constraint>, cs: seq<Constraint>, b: seq<Constraint>)
    requires Sums(es, cs)
    ensures Sums(Intersect(es, b), cs + b)
    decreases b
  {
    hide Sums, IntersectSame;
    if b == [] {
      assert cs + b == cs;
    } else {
      var c := b[0];
      match Find(es, c) {
        case Some(k) => AddKnown(es, cs, c, k);
        case None => AddNew(es, cs, c);
      }
      IntersectSums(Add(es, c), cs + [c], b[1..]);
      assert cs + b == cs + [c] + b[1..];
    }
  }

  lemma {:induction false} NothingMerges(a: seq<Constraint>, b: seq<Constraint>)
    requires OneOfEachKind(a + b)
    ensures Intersect(a, b) == a + b
    decreases b
  {
    hide IntersectSame, SameKind;
    if b == [] {
      assert a + b == a;
    } else {
      assert a + b == a + [b[0]] + b[1..];
      forall i | 0 <= i < |a| ensures !SameKind(a[i], b[0]) {
        assert (a + b)[i] == a[i] && (a + b)[|a|] == b[0];
      }
      NothingMerges(a + [b[0]], b[1..]);
    }
  }

  /** Intersecting two lists sums up what is in both, the first before the second. */
  lemma IntersectGives(a: seq<Constraint>, b: seq<Constraint>)
    requires OneOfEachKind(a)
    ensures Sums(Intersect(a, b), a + b)
  {
    NothingSums();
    assert [] + a == a;
    NothingMerges([], a);
    IntersectSums([], [], a);
    IntersectSums(a, a, b);
  }

  /** The constraints of the first links of a chain, in order. */
  function Given(chain: seq<Link>): seq<Constraint> {
    if chain == [] then [] else Given(chain[..|chain| - 1]) + Own(chain[|chain| - 1])
  }

  lemma GivenSnoc(chain: seq<Link>, i: nat)
    requires i < |chain|
    ensures Given(chain[..i + 1]) == Given(chain[..i]) + Own(chain[i])
  {
    assert chain[..i + 1][..i] == chain[..i];
  }

  lemma NothingSums()
    ensures Sums([], [])
  {
  }

  /** How many links a walk took in. */
  function Taken(chain: seq<Link>, w: Walk): nat { if w.failure.Some? then w.failure.value.brokenStep else |chain| }

  lemma {:induction false} WalkSums(chain: seq<Link>, i: nat, es: seq<Constraint>, allow: bool, depth: i64, now: string)
    requires i <= |chain| && Sums(es, Given(chain[..i]))
    ensures var w := WalkFrom(chain, i, es, allow, depth, now);
      Taken(chain, w) <= |chain| && Sums(w.effective, Given(chain[..Taken(chain, w)]))
    decreases |chain| - i
  {
    hide Sums, Intersect, Less, Given;
    if i < |chain| {
      if Obstacle(chain[i], i, allow, depth, now).None? {
        IntersectSums(es, Given(chain[..i]), Own(chain[i]));
        GivenSnoc(chain, i);
        WalkSums(chain, i + 1, Intersect(es, Own(chain[i])), Allows(chain[i]),
                 MinI64(if i > 0 then depth - 1 else depth, Limit(chain[i])), now);
      }
    }
  }

  /**
   * Along any chain, the effective set is what the constraints of the links before the broken one come to,
   * or of all the links if none is broken: the smallest quantity, rate and window, the largest quorum, the
   * latest start and the earliest end, and of everything else what was given first.
   */
  lemma EffectiveSums(chain: seq<Link>, now: string)
    ensures var w := WalkOf(chain, now);
      Taken(chain, w) <= |chain| && Sums(w.effective, Given(chain[..Taken(chain, w)]))
  {
    NothingSums();
    assert Given(chain[..0]) == [];
    WalkSums(chain, 0, [], true, I64_MAX, now);
  }

  // ---------- What a limit lets through ----------

  /** An amount within every quantity. */
  predicate AdmitsAmount(cs: seq<Constraint>, n: int) {
    forall i :: 0 <= i < |cs| && cs[i].Quantity? ==> n <= cs[i].max
  }

  /** So many calls, and so many seconds, within every rate. */
  predicate AdmitsRate(cs: seq<Constraint>, calls: int, seconds: int) {
    forall i :: 0 <= i < |cs| && cs[i].Rate? ==> calls <= cs[i].maxPerWindow && seconds <= cs[i].windowSeconds
  }

  /** So many approvers reach every quorum. */
  predicate AdmitsApprovers(cs: seq<Constraint>, n: int) {
    forall i :: 0 <= i < |cs| && cs[i].Quorum? ==> cs[i].quorum <= n
  }

  lemma KindOf(es: seq<Constraint>, cs: seq<Constraint>, i: nat) returns (j: nat)
    requires Sums(es, cs) && i < |cs|
    ensures j < |es| && SameKind(es[j], cs[i]) && Totals(es[j], cs)
  {
    assert Has(es, cs[i]);
    j :| 0 <= j < |es| && SameKind(es[j], cs[i]);
  }

  lemma SumsAdmitAmount(es: seq<Constraint>, cs: seq<Constraint>, n: int)
    requires Sums(es, cs)
    ensures AdmitsAmount(es, n) <==> AdmitsAmount(cs, n)
  {
    hide FirstAt, FirstUnit, Sums;
    if AdmitsAmount(es, n) {
      forall i | 0 <= i < |cs| && cs[i].Quantity? ensures n <= cs[i].max {
        var j := KindOf(es, cs, i);
      }
    }
    if AdmitsAmount(cs, n) {
      forall i | 0 <= i < |es| && es[i].Quantity? ensures n <= es[i].max {
        SumsTotals(es, cs, i);
      }
    }
  }

  lemma SumsAdmitRate(es: seq<Constraint>, cs: seq<Constraint>, n: int, m: int)
    requires Sums(es, cs)
    ensures AdmitsRate(es, n, m) <==> AdmitsRate(cs, n, m)
  {
    hide FirstAt, FirstUnit, Sums;
    if AdmitsRate(es, n, m) {
      forall i | 0 <= i < |cs| && cs[i].Rate? ensures n <= cs[i].maxPerWindow && m <= cs[i].windowSeconds {
        var j := KindOf(es, cs, i);
      }
    }
    if AdmitsRate(cs, n, m) {
      forall i | 0 <= i < |es| && es[i].Rate? ensures n <= es[i].maxPerWindow && m <= es[i].windowSeconds {
        SumsTotals(es, cs, i);
      }
    }
  }

  lemma SumsAdmitApprovers(es: seq<Constraint>, cs: seq<Constraint>, n: int)
    requires Sums(es, cs)
    ensures AdmitsApprovers(es, n) <==> AdmitsApprovers(cs, n)
  {
    hide FirstAt, FirstUnit, Sums;
    if AdmitsApprovers(es, n) {
      forall i | 0 <= i < |cs| && cs[i].Quorum? ensures cs[i].quorum <= n {
        var j := KindOf(es, cs, i);
      }
    }
    if AdmitsApprovers(cs, n) {
      forall i | 0 <= i < |es| && es[i].Quorum? ensures es[i].quorum <= n {
        SumsTotals(es, cs, i);
      }
    }
  }

  lemma SumsTotals(es: seq<Constraint>, cs: seq<Constraint>, i: nat)
    requires Sums(es, cs) && i < |es|
    ensures Totals(es[i], cs)
  {
    hide FirstAt, Totals, Has, Ordered;
  }

  lemma {:induction false} GivenAdmits(chain: seq<Link>, n: int, m: int)
    ensures AdmitsAmount(Given(chain), n) <==> forall i :: 0 <= i < |chain| ==> AdmitsAmount(Own(chain[i]), n)
    ensures AdmitsRate(Given(chain), n, m) <==> forall i :: 0 <= i < |chain| ==> AdmitsRate(Own(chain[i]), n, m)
    ensures AdmitsApprovers(Given(chain), n) <==> forall i :: 0 <= i < |chain| ==> AdmitsApprovers(Own(chain[i]), n)
  {
    if chain != [] {
      var init, k := chain[..|chain| - 1], |chain| - 1;
      GivenAdmits(init, n, m);
      AdmitAppend(Given(init), Own(chain[k]), n, m);
      hide AdmitsAmount, AdmitsRate, AdmitsApprovers, Own;
      assert forall i :: 0 <= i < |chain| ==> chain[i] == if i < k then init[i] else chain[k];
      assert forall i :: 0 <= i < |init| ==> init[i] == chain[i];
    }
  }

  lemma AdmitAppend(a: seq<Constraint>, b: seq<Constraint>, n: int, m: int)
    ensures AdmitsAmount(a + b, n) <==> AdmitsAmount(a, n) && AdmitsAmount(b, n)
    ensures AdmitsRate(a + b, n, m) <==> AdmitsRate(a, n, m) && AdmitsRate(b, n, m)
    ensures AdmitsApprovers(a + b, n) <==> AdmitsApprovers(a, n) && AdmitsApprovers(b, n)
  {
    var ab := a + b;
    assert forall i :: 0 <= i < |a| ==> a[i] == ab[i];
    assert forall i :: 0 <= i < |b| ==> b[i] == ab[|a| + i];
  }

  /** A valid chain admits exactly what every constraint of every link admits. */
  lemma ChainAdmits(chain: seq<Link>, now: string, n: int, m: int)
    requires WalkOf(chain, now).failure.None?
    ensures var es := WalkOf(chain, now).effective;
      && (AdmitsAmount(es, n) <==> forall i :: 0 <= i < |chain| ==> AdmitsAmount(Own(chain[i]), n))
      && (AdmitsRate(es, n, m) <==> forall i :: 0 <= i < |chain| ==> AdmitsRate(Own(chain[i]), n, m))
      && (AdmitsApprovers(es, n) <==> forall i :: 0 <= i < |chain| ==> AdmitsApprovers(Own(chain[i]), n))
  {
    var es := WalkOf(chain, now).effective;
    EffectiveSums(chain, now);
    assert chain[..|chain|] == chain;
    hide WalkOf, Given, Sums, AdmitsAmount, AdmitsRate, AdmitsApprovers, Own;
    SumsAdmitAmount(es, Given(chain), n);
    SumsAdmitRate(es, Given(chain), n, m);
    SumsAdmitApprovers(es, Given(chain), n);
    GivenAdmits(chain, n, m);
  }

  // ---------- Why a chain breaks ----------

  /** What is left of the depth before link `i`: the least that a link before it leaves. */
  predicate DepthLeft(chain: seq<Link>, i: nat, depth: int)
    requires i <= |chain|
  {
    && (forall j :: 0 <= j < i ==> depth <= Limit(chain[j]) - (i - 1 - j))
    && (|| depth == I64_MAX - (if i == 0 then 0 else i - 1)
        || exists j :: 0 <= j < i && depth == Limit(chain[j]) - (i - 1 - j))
  }

  lemma DepthStep(chain: seq<Link>, i: nat, depth: i64)
    requires i < |chain| && DepthLeft(chain, i, depth) && (i > 0 ==> depth > 0)
    ensures DepthLeft(chain, i + 1, MinI64(if i > 0 then depth - 1 else depth, Limit(chain[i])))
  {
    hide Limit;
    var next := MinI64(if i > 0 then depth - 1 else depth, Limit(chain[i]));
    if next == Limit(chain[i]) {
      assert next == Limit(chain[i]) - (i + 1 - 1 - i);
    } else if depth != I64_MAX - (if i == 0 then 0 else i - 1) {
      var j :| 0 <= j < i && depth == Limit(chain[j]) - (i - 1 - j);
      assert next == Limit(chain[j]) - (i + 1 - 1 - j);
    }
  }

  /** Some link before `k` does not reach that far. */
  predicate TooShort(chain: seq<Link>, k: nat)
    requires k <= |chain|
  {
    exists j :: 0 <= j < k && Limit(chain[j]) < k - j
  }

  lemma SpentIsTooShort(chain: seq<Link>, i: nat, depth: i64)
    requires 0 < i < |chain| <= I64_MAX && DepthLeft(chain, i, depth)
    ensures depth <= 0 <==> TooShort(chain, i)
  {
    hide Limit;
    if depth <= 0 {
      var j :| 0 <= j < i && depth == Limit(chain[j]) - (i - 1 - j);
      assert Limit(chain[j]) < i - j;
    }
    if TooShort(chain, i) {
      var j :| 0 <= j < i && Limit(chain[j]) < i - j;
      assert depth <= Limit(chain[j]) - (i - 1 - j);
    }
  }

  /** Why link `k` stops a walk that got to it. */
  function ReasonAt(chain: seq<Link>, k: nat, now: string): Option<Reason>
    requires k < |chain|
  {
    if k > 0 && !Allows(chain[k - 1]) then Some(RedelegationDisallowed)
    else if TooShort(chain, k) then Some(MaxDepthExceeded)
    else if Expired(chain[k], now) then Some(LinkExpired(chain[k].expiresAt.value))
    else None
  }

  /** The first link from `i` on that has a reason is the broken one, for that reason; without one, none is. */
  predicate StopsRightly(chain: seq<Link>, i: nat, now: string, f: Option<Failure>) {
    match f
    case None => forall k :: i <= k < |chain| ==> ReasonAt(chain, k, now).None?
    case Some(failure) =>
      && i <= failure.brokenStep < |chain|
      && ReasonAt(chain, failure.brokenStep, now) == Some(failure.reason)
      && forall k :: i <= k < failure.brokenStep ==> ReasonAt(chain, k, now).None?
  }

  lemma ObstacleIs(chain: seq<Link>, i: nat, allow: bool, depth: i64, now: string)
    requires i < |chain| <= I64_MAX && DepthLeft(chain, i, depth) && (allow <==> i == 0 || Allows(chain[i - 1]))
    ensures Obstacle(chain[i], i, allow, depth, now) == ReasonAt(chain, i, now)
  {
    if i > 0 {
      SpentIsTooShort(chain, i, depth);
    }
    hide DepthLeft, Less;
  }

  lemma {:induction false} WalkReason(chain: seq<Link>, i: nat, es: seq<Constraint>, allow: bool, depth: i64,
                                      now: string)
    requires i <= |chain| <= I64_MAX && DepthLeft(chain, i, depth)
    requires allow <==> i == 0 || Allows(chain[i - 1])
    ensures StopsRightly(chain, i, now, WalkFrom(chain, i, es, allow, depth, now).failure)
    decreases |chain| - i
  {
    hide Intersect, Less, DepthLeft, ReasonAt, Allows;
    if i < |chain| {
      ObstacleIs(chain, i, allow, depth, now);
      if Obstacle(chain[i], i, allow, depth, now).None? {
        DepthStep(chain, i, depth);
        WalkReason(chain, i + 1, Intersect(es, Own(chain[i])), Allows(chain[i]),
                   MinI64(if i > 0 then depth - 1 else depth, Limit(chain[i])), now);
      }
    }
  }

  /** A walk stops at the first link that has a reason to stop it, and names that reason. */
  lemma BrokenReason(chain: seq<Link>, now: string)
    requires |chain| <= I64_MAX
    ensures StopsRightly(chain, 0, now, WalkOf(chain, now).failure)
  {
    WalkReason(chain, 0, [], true, I64_MAX, now);
  }
}
