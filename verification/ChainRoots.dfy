/** Exactly which lists of events share a Merkle root, whatever their lengths. */
module ChainRoots {
  import opened Common
  import opened Canonical
  import CanonicalLaws
  import opened Merkle
  import opened MerkleFill
  import opened Chain
  import opened ChainLaws
  import HashRef
  import Utf8

  // ---------- A signed event is longer than two digests ----------

  /** A lower bound of the printed length of members: keys, values, quotes and colons, without the commas. */
  function Bulk(ps: seq<Pair>): nat { if ps == [] then 0 else |ps[0].key| + 3 + |ps[0].text| + Bulk(ps[1..]) }

  lemma {:induction false} EscapedLength(s: string)
    ensures |EscapeAll(s)| >= |s|
  {
    if s != [] {
      EscapedLength(s[1..]);
    }
  }

  lemma {:induction false} JoinBulk(ps: seq<Pair>)
    ensures |Join(ps)| >= Bulk(ps)
  {
    if ps != [] {
      EscapedLength(ps[0].key);
      hide EscapeAll;
      JoinBulk(ps[1..]);
    }
  }

  lemma {:induction false} BulkAppend(a: seq<Pair>, b: seq<Pair>)
    ensures Bulk(a + b) == Bulk(a) + Bulk(b)
  {
    if a == [] {
      assert a + b == b;
    } else {
      BulkAppend(a[1..], b);
      assert (a + b)[1..] == a[1..] + b;
    }
  }

  lemma {:induction false} InsertBulk(p: Pair, ps: seq<Pair>)
    ensures Bulk(Insert(p, ps)) == |p.key| + 3 + |p.text| + Bulk(ps)
  {
    hide Less;
    if ps == [] || !Less(ps[0].key, p.key) {
      assert ([p] + ps)[1..] == ps;
    } else {
      InsertBulk(p, ps[1..]);
      assert ([ps[0]] + Insert(p, ps[1..]))[1..] == Insert(p, ps[1..]);
    }
  }

  lemma {:induction false} SortBulk(ps: seq<Pair>)
    ensures Bulk(Sort(ps)) == Bulk(ps)
  {
    if ps != [] {
      SortBulk(ps[1..]);
      InsertBulk(ps[0], Sort(ps[1..]));
    }
  }

  lemma StringPair(env: Env, m: Member)
    requires CanonicalLaws.PlainMember(env, m) && m.val.String?
    ensures CanonicalLaws.PairOf(env, m).key == m.key && |CanonicalLaws.PairOf(env, m).text| >= 2
  {
    hide EscapeAll;
  }

  lemma BulkCons(p: Pair, ps: seq<Pair>)
    ensures Bulk([p] + ps) == |p.key| + 3 + |p.text| + Bulk(ps)
  {
    assert ([p] + ps)[1..] == ps;
  }

  lemma RequiredBulk(env: Env, e: Event)
    requires CanonicalLaws.PlainMembers(env, Required(e))
    ensures Bulk(CanonicalLaws.Pairs(env, Required(e))) > 64
  {
    var ms := Required(e);
    var ps := CanonicalLaws.Pairs(env, ms);
    forall i | 0 <= i < 6 ensures ps[i].key == ms[i].key && |ps[i].text| >= 2 {
      assert ms[i] in ms;
      StringPair(env, ms[i]);
    }
    hide CanonicalLaws.Pairs, Bulk;
    SixBulk(ps);
  }

  lemma SixBulk(ps: seq<Pair>)
    requires |ps| == 6 && forall i :: 0 <= i < 6 ==> |ps[i].text| >= 2
    requires |ps[0].key| == 13 && |ps[1].key| == 2 && |ps[2].key| == 4 && |ps[3].key| == 8 && |ps[4].key| == 9 &&
      |ps[5].key| == 5
    ensures Bulk(ps) > 64
  {
    hide Bulk;
    assert ps[5..] == [ps[5]] + [];
    assert ps[4..] == [ps[4]] + ps[5..];
    assert ps[3..] == [ps[3]] + ps[4..];
    assert ps[2..] == [ps[2]] + ps[3..];
    assert ps[1..] == [ps[1]] + ps[2..];
    assert ps == [ps[0]] + ps[1..];
    BulkCons(ps[5], []);
    BulkCons(ps[4], ps[5..]);
    BulkCons(ps[3], ps[4..]);
    BulkCons(ps[2], ps[3..]);
    BulkCons(ps[1], ps[2..]);
    BulkCons(ps[0], ps[1..]);
  }

  lemma {:induction false} EncodedLength(s: string)
    ensures |Utf8.Encode(s)| >= |s|
  {
    if s != [] {
      EncodedLength(s[1..]);
    }
  }

  lemma SignedBulk(env: Env, e: Event)
    requires CanonicalLaws.PlainMembers(env, Signed(e))
    ensures Bulk(CanonicalLaws.Pairs(env, Signed(e))) > 64
  {
    hide Bulk, CanonicalLaws.PlainMembers, CanonicalLaws.Pairs;
    var rest := Signed(e)[6..];
    assert Signed(e) == Required(e) + rest;
    PairsAppend(env, Required(e), rest);
    RequiredBulk(env, e);
    BulkAppend(CanonicalLaws.Pairs(env, Required(e)), CanonicalLaws.Pairs(env, rest));
  }

  /** What is signed is always longer than the 64 bytes of two digests. */
  lemma PayloadLong(env: Env, e: Event)
    requires PlainEvent(env, e)
    ensures |Payload(env, e)| > 64
  {
    hide Canon, Signed, Stripped, Bulk, Join, Sort, Utf8.Encode, CanonicalLaws.Text, CanonicalLaws.Pairs, Payload,
      Plain;
    StrippedIs(e);
    CanonicalLaws.TextOfObject(env, Signed(e));
    SignedBulk(env, e);
    var ps := CanonicalLaws.Pairs(env, Signed(e));
    SortBulk(ps);
    JoinBulk(Sort(ps));
    PayloadIs(env, e);
    EncodedLength(CanonicalLaws.Text(env, Stripped(e)));
  }

  lemma PairsAppend(env: Env, xs: seq<Member>, ys: seq<Member>)
    requires CanonicalLaws.PlainMembers(env, xs + ys)
    ensures CanonicalLaws.PlainMembers(env, xs) && CanonicalLaws.PlainMembers(env, ys)
    ensures CanonicalLaws.Pairs(env, xs + ys) == CanonicalLaws.Pairs(env, xs) + CanonicalLaws.Pairs(env, ys)
  {
    hide CanonicalLaws.PlainMember, CanonicalLaws.PairOf;
    assert forall m :: m in xs ==> m in xs + ys;
    assert forall m :: m in ys ==> m in xs + ys;
  }

  lemma PayloadIs(env: Env, e: Event)
    requires PlainEvent(env, e)
    ensures Payload(env, e) == Utf8.Encode(CanonicalLaws.Text(env, Stripped(e)))
  {
    hide Plain, Stripped, Canon, Utf8.Encode;
  }

  // ---------- Merkle roots ----------

  /** Events that fill up the tree to the same full list, up to member order in each. */
  predicate SameFilling(a: seq<Event>, b: seq<Event>)
    requires a != [] && b != []
  {
    HeightFits(|a|);
    HeightFits(|b|);
    Height(|a|) == Height(|b|) && SameEvents(Fill(a, Height(|a|)), Fill(b, Height(|b|)))
  }

  lemma FilledEvents(env: Env, sha: Hasher, a: seq<Event>, d: nat)
    requires PlainEvents(env, a) && 1 <= |a| <= Pow2(d)
    ensures PlainEvents(env, Fill(a, d)) && Payloads(env, Fill(a, d)) <= Payloads(env, a)
    ensures DigestList(env, sha, Fill(a, d)) == Fill(DigestList(env, sha, a), d)
  {
    hide PlainEvent, Payload, DigestOf, Fill, Pow2, FillAt;
    var full := Fill(a, d);
    forall i | 0 <= i < |full| ensures PlainEvent(env, full[i]) && Payload(env, full[i]) in Payloads(env, a)
      && DigestOf(env, sha, full[i]) == Fill(DigestList(env, sha, a), d)[i]
    {
      FillIndex(a, d, i);
      FillIndex(DigestList(env, sha, a), d, i);
      assert full[i] == a[FillAt(|a|, d, i)];
    }
  }

  lemma NonemptyText(env: Env, sha: Hasher, a: seq<Event>)
    requires PlainEvents(env, a) && a != []
    ensures MerkleText(sha, Digests(env, sha, a)) == Ok(HashRef.Sha256Ref(Root(sha, DigestList(env, sha, a))))
  {
    hide Root, DigestOf, PlainEvent, HashRef.Sha256Ref;
    PlainDigests(env, sha, a);
  }

  /** Lists whose trees differ in height never share a root: no event is a node of a tree. */
  lemma HeightsDiffer(env: Env, sha: Hasher, a: seq<Event>, b: seq<Event>, all: set<seq<byte>>)
    requires PlainEvents(env, a) && PlainEvents(env, b) && a != [] && b != [] && Height(|a|) < Height(|b|)
    requires MerkleHashed(env, sha, a) <= all && MerkleHashed(env, sha, b) <= all && NoCollision(sha, all)
    ensures Root(sha, DigestList(env, sha, a)) != Root(sha, DigestList(env, sha, b))
  {
    var x, y := DigestList(env, sha, a), DigestList(env, sha, b);
    assert x[0] == sha(Payload(env, a[0]));
    assert Payload(env, a[0]) in Payloads(env, a);
    PayloadLong(env, a[0]);
    hide PlainEvent, Payload, Root, NodesHashed, Height, DigestList;
    if Root(sha, x) == Root(sha, y) {
      NoCollisionWithin(sha, NodesHashed(sha, x) + NodesHashed(sha, y), all);
      var node := AcrossHeights(sha, x, y);
      assert false;
    }
  }

  lemma SameHeights(env: Env, sha: Hasher, a: seq<Event>, b: seq<Event>)
    requires PlainEvents(env, a) && PlainEvents(env, b) && a != [] && b != [] && Height(|a|) == Height(|b|)
    requires NoCollision(sha, MerkleHashed(env, sha, a) + MerkleHashed(env, sha, b))
    ensures Root(sha, DigestList(env, sha, a)) == Root(sha, DigestList(env, sha, b)) <==> SameFilling(a, b)
  {
    var x, y, d := DigestList(env, sha, a), DigestList(env, sha, b), Height(|a|);
    var all := MerkleHashed(env, sha, a) + MerkleHashed(env, sha, b);
    HeightFits(|a|);
    HeightFits(|b|);
    hide PlainEvent, Payload, Payloads, Root, NodesHashed, Height, Pow2, DigestList, NoCollision, Fill, SameEvents;
    NoCollisionWithin(sha, NodesHashed(sha, x) + NodesHashed(sha, y), all);
    FilledEvents(env, sha, a, d);
    FilledEvents(env, sha, b, d);
    NoCollisionWithin(sha, Payloads(env, Fill(a, d)) + Payloads(env, Fill(b, d)), all);
    DigestListBinds(env, sha, Fill(a, d), Fill(b, d));
    RootExact(sha, x, y);
  }

  /** Non-empty lists of events, of any lengths, have one root exactly when they fill up the tree alike. */
  lemma MerkleRootExact(env: Env, sha: Hasher, a: seq<Event>, b: seq<Event>)
    requires PlainEvents(env, a) && PlainEvents(env, b) && a != [] && b != []
    requires NoCollision(sha, MerkleHashed(env, sha, a) + MerkleHashed(env, sha, b))
    ensures MerkleText(sha, Digests(env, sha, a)) == MerkleText(sha, Digests(env, sha, b)) <==> SameFilling(a, b)
  {
    NonemptyText(env, sha, a);
    NonemptyText(env, sha, b);
    var x, y := DigestList(env, sha, a), DigestList(env, sha, b);
    var all := MerkleHashed(env, sha, a) + MerkleHashed(env, sha, b);
    hide PlainEvent, MerkleHashed, MerkleText, Digests, DigestList, Root, NoCollision, HashRef.Sha256Ref, Fill,
      SameEvents;
    if Height(|a|) < Height(|b|) {
      HeightsDiffer(env, sha, a, b, all);
    } else if Height(|b|) < Height(|a|) {
      HeightsDiffer(env, sha, b, a, all);
    } else {
      SameHeights(env, sha, a, b);
    }
    if HashRef.Sha256Ref(Root(sha, x)) == HashRef.Sha256Ref(Root(sha, y)) {
      HashRef.PrintInjective(Root(sha, x), Root(sha, y));
    }
  }

  /** No two events of the list are the same. */
  predicate DifferentEvents(events: seq<Event>) {
    forall i, j :: 0 <= i < j < |events| ==> !SameEvent(events[i], events[j])
  }

  lemma DifferentDigests(env: Env, sha: Hasher, events: seq<Event>)
    requires PlainEvents(env, events) && DifferentEvents(events) && NoCollision(sha, Payloads(env, events))
    ensures Distinct(DigestList(env, sha, events))
  {
    hide PlainEvent, Payload, SameEvent;
    var ds := DigestList(env, sha, events);
    forall i, j | 0 <= i < j < |ds| ensures ds[i] != ds[j] {
      PayloadBinds(env, events[i], events[j]);
      assert Payload(env, events[i]) in Payloads(env, events) && Payload(env, events[j]) in Payloads(env, events);
    }
  }

  /** Lists without repeated events, of any lengths: one root exactly when the events agree throughout. */
  lemma DifferentEventsBind(env: Env, sha: Hasher, a: seq<Event>, b: seq<Event>)
    requires PlainEvents(env, a) && PlainEvents(env, b) && a != [] && b != [] && DifferentEvents(a) &&
      DifferentEvents(b)
    requires NoCollision(sha, MerkleHashed(env, sha, a) + MerkleHashed(env, sha, b))
    ensures MerkleText(sha, Digests(env, sha, a)) == MerkleText(sha, Digests(env, sha, b)) <==> SameEvents(a, b)
  {
    var x, y := DigestList(env, sha, a), DigestList(env, sha, b);
    var all := MerkleHashed(env, sha, a) + MerkleHashed(env, sha, b);
    NoCollisionWithin(sha, Payloads(env, a) + Payloads(env, b), all);
    NoCollisionWithin(sha, Payloads(env, a), all);
    NoCollisionWithin(sha, Payloads(env, b), all);
    NoCollisionWithin(sha, NodesHashed(sha, x) + NodesHashed(sha, y), all);
    hide PlainEvent, Payload, Payloads, SameEvent, DifferentEvents, Root, NodesHashed, NoCollision, MerkleText,
      Digests, DigestOf, HashRef.Sha256Ref;
    NonemptyText(env, sha, a);
    NonemptyText(env, sha, b);
    DifferentDigests(env, sha, a);
    DifferentDigests(env, sha, b);
    if SameEvents(a, b) {
      DigestListBinds(env, sha, a, b);
    }
    if MerkleText(sha, Digests(env, sha, a)) == MerkleText(sha, Digests(env, sha, b)) {
      HashRef.PrintInjective(Root(sha, x), Root(sha, y));
      OneHeight(env, sha, a, b, all);
      hide DigestList, Height;
      DistinctBind(sha, x, y);
      CountOf(env, sha, a);
      CountOf(env, sha, b);
      DigestListBinds(env, sha, a, b);
    }
  }

  lemma CountOf(env: Env, sha: Hasher, a: seq<Event>)
    requires PlainEvents(env, a)
    ensures |DigestList(env, sha, a)| == |a|
  {
  }

  lemma OneHeight(env: Env, sha: Hasher, a: seq<Event>, b: seq<Event>, all: set<seq<byte>>)
    requires PlainEvents(env, a) && PlainEvents(env, b) && a != [] && b != []
    requires MerkleHashed(env, sha, a) <= all && MerkleHashed(env, sha, b) <= all && NoCollision(sha, all)
    requires Root(sha, DigestList(env, sha, a)) == Root(sha, DigestList(env, sha, b))
    ensures Height(|a|) == Height(|b|)
  {
    hide *;
    if Height(|a|) < Height(|b|) {
      HeightsDiffer(env, sha, a, b, all);
    } else if Height(|b|) < Height(|a|) {
      HeightsDiffer(env, sha, b, a, all);
    }
  }
}
