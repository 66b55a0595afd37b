/** What it means for two events to be the same to a signature: field by field, all but the signature. */
module ChainEvents {
  import opened Common
  import opened Canonical
  import CanonicalLaws
  import opened Chain
  import opened ChainLaws

  /** Every field but the signature agrees; the open-ended fields up to member order. */
  predicate Agree(a: Event, b: Event) {
    && a.id == b.id && a.kind == b.kind && a.actorId == b.actorId
    && a.timestamp == b.timestamp && a.level == b.level
    && a.parentHash == b.parentHash && Same(Object(a.fields), Object(b.fields))
  }

  predicate FixedKey(key: string, i: nat)
    requires i < 6
  {
    key == ["event_version", "id", "type", "actor_id", "timestamp", "level"][i]
  }

  lemma FixedKeys(e: Event, i: nat)
    requires i < 6
    ensures FixedKey(Required(e)[i].key, i) && Reserved(Required(e)[i].key)
    ensures Required(e)[i].val == String(["1", e.id, e.kind, e.actorId, e.timestamp, e.level][i])
  {
  }

  /** The fixed names have lengths of their own. */
  lemma KeyLength(key: string, i: nat)
    requires i < 6 && FixedKey(key, i)
    ensures |key| == [13, 2, 4, 8, 9, 5][i]
  {
  }

  /** Where a member of an event's signed part stands follows from its key. */
  lemma SignedPlace(e: Event, j: nat)
    requires WellFormed(e) && j < |Signed(e)|
    ensures var m := Signed(e)[j];
      if j < 6 then FixedKey(m.key, j) && Reserved(m.key) && m == Required(e)[j]
      else if j < 6 + |e.fields| then !Reserved(m.key) && m == e.fields[j - 6]
      else m.key == "parent_hash" && e.parentHash.Some? && j == |Signed(e)| - 1
           && m.val == String(e.parentHash.value)
  {
    if j < 6 {
      FixedKeys(e, j);
    }
    hide Required;
  }

  lemma SamePlace(a: Event, b: Event, i: nat, j: nat)
    requires WellFormed(a) && WellFormed(b) && i < |Signed(a)| && j < |Signed(b)|
    requires Signed(a)[i].key == Signed(b)[j].key
    ensures i < 6 || j < 6 ==> i == j
    ensures 6 <= i < 6 + |a.fields| <==> 6 <= j < 6 + |b.fields|
  {
    SignedPlace(a, i);
    SignedPlace(b, j);
    hide Signed, Required;
    var key := Signed(a)[i].key;
    assert |"parent_hash"| == 11;
    if i < 6 {
      KeyLength(key, i);
    }
    if j < 6 {
      KeyLength(key, j);
    }
  }

  lemma SignedDistinct(e: Event)
    requires WellFormed(e)
    ensures DistinctKeys(Signed(e))
  {
    var ms := Signed(e);
    forall i, j | 0 <= i < j < |ms| ensures ms[i].key != ms[j].key {
      if ms[i].key == ms[j].key {
        SamePlace(e, e, i, j);
        SignedPlace(e, i);
        SignedPlace(e, j);
      }
    }
  }

  lemma SignedSame(a: Event, b: Event)
    requires WellFormed(a) && WellFormed(b)
    ensures SameEvent(a, b) <==> Same(Object(Signed(a)), Object(Signed(b)))
  {
    hide Stripped, Signed, Same;
    StrippedIs(a);
    StrippedIs(b);
  }

  lemma Partner(a: Event, b: Event, i: nat) returns (j: nat)
    requires WellFormed(a) && WellFormed(b) && Same(Object(Signed(a)), Object(Signed(b))) && i < |Signed(a)|
    ensures j < |Signed(b)| && Signed(a)[i].key == Signed(b)[j].key && Same(Signed(a)[i].val, Signed(b)[j].val)
    ensures i < 6 || j < 6 ==> i == j
    ensures 6 <= i < 6 + |a.fields| <==> 6 <= j < 6 + |b.fields|
  {
    hide Signed, WellFormed;
    assert HasPartner(Signed(a)[i], Signed(b));
    j :| 0 <= j < |Signed(b)| && Signed(a)[i].key == Signed(b)[j].key && Same(Signed(a)[i].val, Signed(b)[j].val);
    SamePlace(a, b, i, j);
  }

  lemma FixedAgree(a: Event, b: Event, i: nat)
    requires WellFormed(a) && WellFormed(b) && Same(Object(Signed(a)), Object(Signed(b))) && i < 6
    ensures Required(a)[i].val == Required(b)[i].val
  {
    hide WellFormed, Reserved;
    var j := Partner(a, b, i);
    FixedKeys(a, i);
    FixedKeys(b, i);
  }

  lemma ParentsAgree(a: Event, b: Event)
    requires WellFormed(a) && WellFormed(b) && Same(Object(Signed(a)), Object(Signed(b)))
    ensures a.parentHash == b.parentHash
  {
    hide Required, Reserved;
    SignedSame(a, b);
    if a.parentHash.Some? {
      SameParent(a, b);
    } else if b.parentHash.Some? {
      SignedDistinct(a);
      SignedDistinct(b);
      var i := CanonicalLaws.MatchedBack(Signed(a), Signed(b), |Signed(b)| - 1);
      ParentPlace(a, i);
    }
  }

  lemma FieldsAgree(a: Event, b: Event)
    requires WellFormed(a) && WellFormed(b) && Same(Object(Signed(a)), Object(Signed(b)))
    ensures Same(Object(a.fields), Object(b.fields))
  {
    assert |Required(a)| == |Required(b)| == 6;
    hide Required, Reserved;
    ParentsAgree(a, b);
    assert |Signed(a)| == |Signed(b)|;
    assert |a.fields| == |b.fields|;
    forall i | 0 <= i < |a.fields| ensures HasPartner(a.fields[i], b.fields) {
      var j := Partner(a, b, 6 + i);
      SignedPlace(a, 6 + i);
      SignedPlace(b, j);
      assert b.fields[j - 6].key == a.fields[i].key;
    }
  }

  lemma AgreeIsSame(a: Event, b: Event)
    requires WellFormed(a) && WellFormed(b) && Agree(a, b)
    ensures Same(Object(Signed(a)), Object(Signed(b)))
  {
    hide WellFormed, Reserved;
    var ms, ns := Signed(a), Signed(b);
    assert Required(a) == Required(b);
    forall i | 0 <= i < |ms| ensures HasPartner(ms[i], ns) {
      if 6 <= i < 6 + |a.fields| {
        assert HasPartner(a.fields[i - 6], b.fields);
        var j :| 0 <= j < |b.fields| && ms[i].key == b.fields[j].key && Same(ms[i].val, b.fields[j].val);
        assert ns[6 + j] == b.fields[j];
      } else {
        assert ms[i] == ns[i];
        assert ms[i].val.String?;
      }
    }
  }

  /** An event's hash covers every field but the signature, and nothing else. */
  lemma SameEventExactly(a: Event, b: Event)
    requires WellFormed(a) && WellFormed(b)
    ensures SameEvent(a, b) <==> Agree(a, b)
  {
    hide SameEvent, Same, Signed, WellFormed;
    SignedSame(a, b);
    if SameEvent(a, b) {
      ParentsAgree(a, b);
      FieldsAgree(a, b);
      FixedAgree(a, b, 1);
      FixedAgree(a, b, 2);
      FixedAgree(a, b, 3);
      FixedAgree(a, b, 4);
      FixedAgree(a, b, 5);
    }
    if Agree(a, b) {
      AgreeIsSame(a, b);
    }
  }
}
