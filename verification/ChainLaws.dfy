/** What event hashes, roots and parent links bind: the events themselves, up to member order. */
module ChainLaws {
  import opened Common
  import opened Canonical
  import CanonicalLaws
  import opened Merkle
  import opened Chain
  import HashRef
  import Utf8

  /** Serializable events whose signed part is float-free and in normal form. */
  predicate PlainEvent(env: Env, e: Event) { WellFormed(e) && Plain(env, Stripped(e)) }

  predicate PlainEvents(env: Env, events: seq<Event>) { forall i :: 0 <= i < |events| ==> PlainEvent(env, events[i]) }

  /** The signed parts agree, up to member order. */
  predicate SameEvent(a: Event, b: Event) { Same(Stripped(a), Stripped(b)) }

  predicate SameEvents(a: seq<Event>, b: seq<Event>) {
    |a| == |b| && forall i :: 0 <= i < |a| ==> SameEvent(a[i], b[i])
  }

  /** The bytes an event hash is taken over. */
  function Payload(env: Env, e: Event): seq<byte>
    requires PlainEvent(env, e)
  {
    PlainPrints(env, Stripped(e));
    PayloadBytes(Canon(env, Stripped(e)).value)
  }

  ghost function Payloads(env: Env, events: seq<Event>): set<seq<byte>>
    requires PlainEvents(env, events)
  {
    set i | 0 <= i < |events| :: Payload(env, events[i])
  }

  function DigestOf(env: Env, sha: Hasher, e: Event): Digest
    requires PlainEvent(env, e)
  {
    sha(Payload(env, e))
  }

  lemma PlainDigest(env: Env, sha: Hasher, e: Event)
    requires PlainEvent(env, e)
    ensures EventDigest(env, sha, e) == Ok(DigestOf(env, sha, e))
  {
    hide Canon, Plain, Stripped;
    PlainPrints(env, Stripped(e));
  }

  /** Payloads are equal exactly when the signed parts are the same. */
  lemma PayloadBinds(env: Env, a: Event, b: Event)
    requires PlainEvent(env, a) && PlainEvent(env, b)
    ensures Payload(env, a) == Payload(env, b) <==> SameEvent(a, b)
  {
    hide Canon, Plain, Stripped, Same, Utf8.Encode;
    CanonicalLaws.CanonicalIdentity(env, Stripped(a), Stripped(b));
    var x, y := Canon(env, Stripped(a)).value, Canon(env, Stripped(b)).value;
    if Payload(env, a) == Payload(env, b) {
      Utf8.EncodeInjective(x, y);
    }
  }

  /** Absent a collision between the two payloads, event hashes are equal exactly when the signed parts are the same. */
  lemma EventHashBinds(env: Env, sha: Hasher, a: Event, b: Event)
    requires PlainEvent(env, a) && PlainEvent(env, b) && NoCollision(sha, {Payload(env, a), Payload(env, b)})
    ensures HashText(EventDigest(env, sha, a)) == HashText(EventDigest(env, sha, b)) <==> SameEvent(a, b)
  {
    PlainDigest(env, sha, a);
    PlainDigest(env, sha, b);
    PayloadBinds(env, a, b);
    hide PlainEvent, Payload, SameEvent, EventDigest, HashRef.Sha256Ref;
    if HashText(EventDigest(env, sha, a)) == HashText(EventDigest(env, sha, b)) {
      HashRef.PrintInjective(DigestOf(env, sha, a), DigestOf(env, sha, b));
    }
  }

  // ---------- Merkle root and rolling hash ----------

  function DigestList(env: Env, sha: Hasher, events: seq<Event>): seq<Digest>
    requires PlainEvents(env, events)
  {
    seq(|events|, i requires 0 <= i < |events| => DigestOf(env, sha, events[i]))
  }

  lemma {:induction false} PlainDigests(env: Env, sha: Hasher, events: seq<Event>)
    requires PlainEvents(env, events)
    ensures Digests(env, sha, events) == Ok(DigestList(env, sha, events))
  {
    hide PlainEvent, EventDigest, DigestOf;
    if events != [] {
      PlainDigest(env, sha, events[0]);
      PlainDigests(env, sha, events[1..]);
      assert DigestList(env, sha, events) == [DigestOf(env, sha, events[0])] + DigestList(env, sha, events[1..]);
    } else {
      assert DigestList(env, sha, events) == [];
    }
  }

  lemma DigestListBinds(env: Env, sha: Hasher, a: seq<Event>, b: seq<Event>)
    requires PlainEvents(env, a) && PlainEvents(env, b) && |a| == |b|
    requires NoCollision(sha, Payloads(env, a) + Payloads(env, b))
    ensures DigestList(env, sha, a) == DigestList(env, sha, b) <==> SameEvents(a, b)
  {
    hide PlainEvent, Payload, SameEvent;
    var x, y := DigestList(env, sha, a), DigestList(env, sha, b);
    forall i | 0 <= i < |a| ensures x[i] == y[i] <==> SameEvent(a[i], b[i]) {
      PayloadBinds(env, a[i], b[i]);
      assert Payload(env, a[i]) in Payloads(env, a) && Payload(env, b[i]) in Payloads(env, b);
    }
    assert SameEvents(a, b) ==> forall i :: 0 <= i < |a| ==> x[i] == y[i];
  }

  lemma NoCollisionWithin(sha: Hasher, some: set<seq<byte>>, all: set<seq<byte>>)
    requires some <= all && NoCollision(sha, all)
    ensures NoCollision(sha, some)
  {
  }

  /** Every message hashed for the root. */
  ghost function MerkleHashed(env: Env, sha: Hasher, events: seq<Event>): set<seq<byte>>
    requires PlainEvents(env, events)
  {
    Payloads(env, events) + NodesHashed(sha, DigestList(env, sha, events))
  }

  /** Equally many events: one root exactly when the signed parts agree throughout. */
  lemma MerkleRootBinds(env: Env, sha: Hasher, a: seq<Event>, b: seq<Event>)
    requires PlainEvents(env, a) && PlainEvents(env, b) && |a| == |b|
    requires NoCollision(sha, MerkleHashed(env, sha, a) + MerkleHashed(env, sha, b))
    ensures MerkleText(sha, Digests(env, sha, a)) == MerkleText(sha, Digests(env, sha, b)) <==> SameEvents(a, b)
  {
    var x, y := DigestList(env, sha, a), DigestList(env, sha, b);
    var all := MerkleHashed(env, sha, a) + MerkleHashed(env, sha, b);
    NoCollisionWithin(sha, Payloads(env, a) + Payloads(env, b), all);
    NoCollisionWithin(sha, NodesHashed(sha, x) + NodesHashed(sha, y), all);
    PlainDigests(env, sha, a);
    PlainDigests(env, sha, b);
    DigestListBinds(env, sha, a, b);
    RootTextBinds(sha, x, y);
  }

  lemma RootTextBinds(sha: Hasher, x: seq<Digest>, y: seq<Digest>)
    requires |x| == |y| && NoCollision(sha, NodesHashed(sha, x) + NodesHashed(sha, y))
    ensures MerkleText(sha, Ok(x)) == MerkleText(sha, Ok(y)) <==> x == y
  {
    hide HashRef.Sha256Ref, NodesHashed, NoCollision, Root;
    if MerkleText(sha, Ok(x)) == MerkleText(sha, Ok(y)) && x != [] {
      HashRef.PrintInjective(Root(sha, x), Root(sha, y));
      RootBinds(sha, x, y);
    }
  }

  ghost function ChainHashed(env: Env, sha: Hasher, events: seq<Event>): set<seq<byte>>
    requires PlainEvents(env, events)
  {
    Payloads(env, events) + RollingHashed(sha, DigestList(env, sha, events))
  }

  /**
   * Lists of any lengths have one chain hash exactly when the signed parts of the shorter are the tail of
   * the longer's and the events before that tail hash to the zeros that a chain hash starts from.
   */
  lemma ChainHashBinds(env: Env, sha: Hasher, a: seq<Event>, b: seq<Event>)
    requires PlainEvents(env, a) && PlainEvents(env, b) && |a| <= |b|
    requires NoCollision(sha, ChainHashed(env, sha, a) + ChainHashed(env, sha, b))
    ensures
      var k := |b| - |a|;
      ChainText(sha, Digests(env, sha, a)) == ChainText(sha, Digests(env, sha, b))
      <==> SameEvents(a, b[k..]) && Rolling(sha, DigestList(env, sha, b[..k])) == Zeros()
  {
    var x, y, k := DigestList(env, sha, a), DigestList(env, sha, b), |b| - |a|;
    var all := ChainHashed(env, sha, a) + ChainHashed(env, sha, b);
    PlainDigests(env, sha, a);
    PlainDigests(env, sha, b);
    SplitList(env, sha, b, k);
    hide PlainEvent, Payload, Payloads, DigestList, Digests, ChainText, Rolling, RollingHashed, NoCollision, SameEvents;
    NoCollisionWithin(sha, Payloads(env, a) + Payloads(env, b[k..]), all);
    NoCollisionWithin(sha, RollingHashed(sha, x) + RollingHashed(sha, y), all);
    DigestListBinds(env, sha, a, b[k..]);
    RollingTextBinds(sha, x, y);
  }

  lemma SplitList(env: Env, sha: Hasher, events: seq<Event>, k: nat)
    requires PlainEvents(env, events) && k <= |events|
    ensures DigestList(env, sha, events[k..]) == DigestList(env, sha, events)[k..]
    ensures DigestList(env, sha, events[..k]) == DigestList(env, sha, events)[..k]
    ensures Payloads(env, events[k..]) <= Payloads(env, events)
  {
    hide PlainEvent, Payload, DigestOf;
  }

  lemma RollingTextBinds(sha: Hasher, x: seq<Digest>, y: seq<Digest>)
    requires |x| <= |y| && NoCollision(sha, RollingHashed(sha, x) + RollingHashed(sha, y))
    ensures ChainText(sha, Ok(x)) == ChainText(sha, Ok(y)) <==> RollsBack(sha, x, y)
  {
    hide HashRef.Sha256Ref, RollingHashed, NoCollision, Rolling, RollsBack;
    RollingBinds(sha, x, y);
    if ChainText(sha, Ok(x)) == ChainText(sha, Ok(y)) {
      HashRef.PrintInjective(Rolling(sha, x), Rolling(sha, y));
    }
  }

  /**
   * The count is not bound: an odd number of events, three or more, has the root of the list with its last
   * event repeated.
   */
  lemma RepeatedEvent(env: Env, sha: Hasher, events: seq<Event>)
    requires PlainEvents(env, events) && |events| >= 3 && |events| % 2 == 1
    ensures MerkleText(sha, Digests(env, sha, events + [events[|events| - 1]])) ==
      MerkleText(sha, Digests(env, sha, events))
  {
    hide PlainEvent, Root, Digests, DigestOf;
    var last := events[|events| - 1];
    var longer := events + [last];
    PlainDigests(env, sha, events);
    PlainDigests(env, sha, longer);
    var ds := DigestList(env, sha, events);
    assert DigestList(env, sha, longer) == ds + [ds[|ds| - 1]];
    RepeatedLast(sha, ds);
  }

  // ---------- Parent links ----------

  lemma {:induction false} RemoveAppend(xs: seq<Member>, ys: seq<Member>, key: string)
    ensures Remove(xs + ys, key) == Remove(xs, key) + Remove(ys, key)
  {
    if xs == [] {
      assert xs + ys == ys;
    } else {
      RemoveAppend(xs[1..], ys, key);
      assert (xs + ys)[1..] == xs[1..] + ys;
      Regroup(if xs[0].key == key then [] else [xs[0]], Remove(xs[1..], key), Remove(ys, key));
    }
  }

  lemma {:induction false} RemoveAbsent(xs: seq<Member>, key: string)
    requires forall i :: 0 <= i < |xs| ==> xs[i].key != key
    ensures Remove(xs, key) == xs
  {
    if xs != [] {
      RemoveAbsent(xs[1..], key);
    }
  }

  /** The members that are signed: every field and the parent hash. */
  function Signed(e: Event): seq<Member> { Required(e) + e.fields + ParentMember(e) }

  lemma RequiredKeys(e: Event, i: nat)
    requires i < 6
    ensures Required(e)[i].key != "parent_hash" && Required(e)[i].key != "signature"
  {
    assert Required(e)[i].key[0] in {'e', 'i', 't', 'a', 'l'};
    assert "parent_hash"[0] == 'p' && "signature"[0] == 's';
  }

  lemma StrippedIs(e: Event)
    requires WellFormed(e)
    ensures Stripped(e) == Object(Signed(e))
  {
    var kept, sig := Signed(e), [Member("signature", e.signature)];
    RemoveAppend(kept, sig, "signature");
    assert "parent_hash"[0] != "signature"[0];
    forall i | 0 <= i < |kept| ensures kept[i].key != "signature" {
      if i < 6 {
        RequiredKeys(e, i);
      }
    }
    RemoveAbsent(kept, "signature");
    assert Remove(sig, "signature") == [] + Remove(sig[1..], "signature") && sig[1..] == [];
    assert kept + [] == kept;
  }

  /** The parent hash is part of what is signed. */
  lemma SameParent(a: Event, b: Event)
    requires WellFormed(a) && WellFormed(b) && SameEvent(a, b) && a.parentHash.Some?
    ensures b.parentHash == a.parentHash
  {
    StrippedIs(a);
    StrippedIs(b);
    hide Stripped, Required;
    var ms, ns := Signed(a), Signed(b);
    var m := ms[|ms| - 1];
    assert HasPartner(m, ns);
    var j :| 0 <= j < |ns| && m.key == ns[j].key && Same(m.val, ns[j].val);
    ParentPlace(b, j);
  }

  lemma ParentPlace(e: Event, j: nat)
    requires WellFormed(e) && j < |Signed(e)| && Signed(e)[j].key == "parent_hash"
    ensures e.parentHash.Some? && Signed(e)[j].val == String(e.parentHash.value)
  {
    if j < 6 {
      RequiredKeys(e, j);
    }
  }

  /** If two linked lists end in events of one hash, then going back in step the signed parts agree. */
  lemma {:induction false} LinksBind(env: Env, sha: Hasher, a: seq<Event>, b: seq<Event>, k: nat)
    requires PlainEvents(env, a) && PlainEvents(env, b) && Chained(env, sha, a) && Chained(env, sha, b)
    requires NoCollision(sha, Payloads(env, a) + Payloads(env, b))
    requires k < |a| <= |b|
    requires HashText(EventDigest(env, sha, a[|a| - 1])) == HashText(EventDigest(env, sha, b[|b| - 1]))
    ensures SameEvent(a[|a| - 1 - k], b[|b| - 1 - k])
    decreases k
  {
    hide PlainEvent, Payload, SameEvent, EventDigest;
    var i, j := |a| - 1 - k, |b| - 1 - k;
    if k > 0 {
      LinksBind(env, sha, a, b, k - 1);
      assert Linked(env, sha, a, i + 1) && Linked(env, sha, b, j + 1);
      PlainIsWellFormed(env, a[i + 1]);
      PlainIsWellFormed(env, b[j + 1]);
      SameParent(a[i + 1], b[j + 1]);
    }
    assert Payload(env, a[i]) in Payloads(env, a) && Payload(env, b[j]) in Payloads(env, b);
    NoCollisionWithin(sha, {Payload(env, a[i]), Payload(env, b[j])}, Payloads(env, a) + Payloads(env, b));
    EventHashBinds(env, sha, a[i], b[j]);
  }

  lemma PlainIsWellFormed(env: Env, e: Event)
    requires PlainEvent(env, e)
    ensures WellFormed(e)
  {
  }

  /** Two lists that pass `verify_chain` and end in events of one hash: the shorter is the tail of the longer. */
  lemma ChainsShareHistory(env: Env, sha: Hasher, a: seq<Event>, b: seq<Event>)
    requires PlainEvents(env, a) && PlainEvents(env, b) && Chained(env, sha, a) && Chained(env, sha, b)
    requires NoCollision(sha, Payloads(env, a) + Payloads(env, b))
    requires 0 < |a| <= |b|
    ensures HashText(EventDigest(env, sha, a[|a| - 1])) == HashText(EventDigest(env, sha, b[|b| - 1])) <==>
      SameEvents(a, b[|b| - |a|..])
  {
    hide PlainEvent, Payload, SameEvent, EventDigest, Chained, NoCollision;
    var tail := b[|b| - |a|..];
    if HashText(EventDigest(env, sha, a[|a| - 1])) == HashText(EventDigest(env, sha, b[|b| - 1])) {
      forall i | 0 <= i < |a| ensures SameEvent(a[i], tail[i]) {
        LinksBind(env, sha, a, b, |a| - 1 - i);
      }
    }
    if SameEvents(a, tail) {
      var x, y := a[|a| - 1], b[|b| - 1];
      assert SameEvent(x, tail[|a| - 1]);
      assert Payload(env, x) in Payloads(env, a) && Payload(env, y) in Payloads(env, b);
      NoCollisionWithin(sha, {Payload(env, x), Payload(env, y)}, Payloads(env, a) + Payloads(env, b));
      EventHashBinds(env, sha, x, y);
    }
  }
}
