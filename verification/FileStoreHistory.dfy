/** The store's memory told from the operations alone: which events it holds, in which order, and which revocations. */
module FileStoreHistory {
  import opened Common
  import opened Canonical
  import opened FileStore
  import opened FileStoreLaws

  /** Operation `i` appends an event whose canonical text has this hash. */
  predicate Appends(w: World, ops: seq<Op>, i: int, hash: string) {
    0 <= i < |ops| && ops[i].DoAppend? && HashedAs(w, ops[i].event, hash)
  }

  predicate HashedAs(w: World, event: Json, hash: string) {
    Canon(w.env, event).Ok? && hash == Ref(w, Canon(w.env, event).value)
  }

  predicate FirstAppend(w: World, ops: seq<Op>, i: int, hash: string) {
    Appends(w, ops, i, hash) && forall j :: 0 <= j < i ==> !Appends(w, ops, j, hash)
  }

  predicate Inserts(ops: seq<Op>, i: int, k: Key) { 0 <= i < |ops| && ops[i].DoInsert? && ops[i].key == k }

  predicate LastInsert(ops: seq<Op>, i: int, k: Key) {
    Inserts(ops, i, k) && forall j :: i < j < |ops| ==> !Inserts(ops, j, k)
  }

  /** Increasing places, where the hashes of `order` are first appended. */
  predicate Appearances(w: World, ops: seq<Op>, order: seq<string>, places: seq<nat>) {
    && |places| == |order|
    && (forall a, b :: 0 <= a < b < |places| ==> places[a] < places[b])
    && (forall a :: 0 <= a < |order| ==> FirstAppend(w, ops, places[a], order[a]))
  }

  /** The hashes that were appended, in the order they first were, each with the event it was first appended with. */
  ghost predicate Ledgered(w: World, ops: seq<Op>, l: Ledger) {
    && (forall h :: h in l.payloads <==> exists i :: Appends(w, ops, i, h))
    && (forall h :: h in l.order <==> h in l.payloads)
    && (forall h, i :: FirstAppend(w, ops, i, h) ==> h in l.payloads && ops[i] == DoAppend(l.payloads[h]))
    && exists places: seq<nat> :: Appearances(w, ops, l.order, places)
  }

  /** The keys that were inserted, each with its last time. */
  ghost predicate Revoked(ops: seq<Op>, m: map<Key, string>) {
    && (forall k :: k in m <==> exists i :: Inserts(ops, i, k))
    && (forall k, i :: LastInsert(ops, i, k) ==> k in m && ops[i] == DoInsert(k, m[k]))
  }

  // ---------- One more operation ----------

  lemma MoreAppends(w: World, ops: seq<Op>, op: Op)
    ensures forall i, h :: Appends(w, ops, i, h) ==> 0 <= i < |ops|
    ensures forall i, h :: Appends(w, ops + [op], i, h) <==>
      if i == |ops| then op.DoAppend? && HashedAs(w, op.event, h) else Appends(w, ops, i, h)
  {
    hide HashedAs;
    assert (ops + [op])[|ops|] == op;
  }

  lemma MoreInserts(ops: seq<Op>, op: Op)
    ensures forall i, k :: Inserts(ops, i, k) ==> 0 <= i < |ops|
    ensures forall i, k :: Inserts(ops + [op], i, k) <==>
      if i == |ops| then op.DoInsert? && op.key == k else Inserts(ops, i, k)
  {
    assert (ops + [op])[|ops|] == op;
  }

  lemma OrderStays(w: World, ops: seq<Op>, op: Op, order: seq<string>)
    requires exists places: seq<nat> :: Appearances(w, ops, order, places)
    ensures exists places: seq<nat> :: Appearances(w, ops + [op], order, places)
  {
    hide Appends;
    MoreAppends(w, ops, op);
    var places: seq<nat> :| Appearances(w, ops, order, places);
    assert Appearances(w, ops + [op], order, places);
  }

  lemma OrderGrows(w: World, ops: seq<Op>, op: Op, order: seq<string>, h: string)
    requires exists places: seq<nat> :: Appearances(w, ops, order, places)
    requires FirstAppend(w, ops + [op], |ops|, h)
    ensures exists places: seq<nat> :: Appearances(w, ops + [op], order + [h], places)
  {
    hide Appends;
    MoreAppends(w, ops, op);
    var places: seq<nat> :| Appearances(w, ops, order, places);
    assert forall a :: 0 <= a < |order| ==> FirstAppend(w, ops, places[a], order[a]);
    assert Appearances(w, ops + [op], order + [h], places + [|ops|]);
  }

  /** An operation that appends nothing new leaves the ledger as it is. */
  lemma LedgerStays(w: World, ops: seq<Op>, op: Op, l: Ledger)
    requires Ledgered(w, ops, l)
    requires forall h :: op.DoAppend? && HashedAs(w, op.event, h) ==> h in l.payloads
    ensures Ledgered(w, ops + [op], l)
  {
    hide Appends, Appearances, HashedAs;
    var more := ops + [op];
    MoreAppends(w, ops, op);
    OrderStays(w, ops, op, l.order);
    forall h ensures h in l.payloads <==> exists i :: Appends(w, more, i, h) {
      if h in l.payloads {
        var i :| Appends(w, ops, i, h);
        assert Appends(w, more, i, h);
      }
    }
    forall h, i | FirstAppend(w, more, i, h) ensures h in l.payloads && more[i] == DoAppend(l.payloads[h]) {
      assert forall j :: Appends(w, ops, j, h) ==> Appends(w, more, j, h);
      assert i < |ops|;
      assert FirstAppend(w, ops, i, h);
    }
  }

  lemma LedgerGrows(w: World, ops: seq<Op>, event: Json, hash: string, l: Ledger)
    requires Ledgered(w, ops, l) && HashedAs(w, event, hash) && hash !in l.payloads
    ensures Ledgered(w, ops + [DoAppend(event)], Admit(l, hash, event))
  {
    OnlyHash(w, event, hash);
    hide Appends, Appearances, HashedAs;
    var more := ops + [DoAppend(event)];
    MoreAppends(w, ops, DoAppend(event));
    assert Appends(w, more, |ops|, hash);
    OrderGrows(w, ops, DoAppend(event), l.order, hash);
    var next := Admit(l, hash, event);
    forall h ensures h in next.payloads <==> exists i :: Appends(w, more, i, h) {
      if h in l.payloads {
        var i :| Appends(w, ops, i, h);
        assert Appends(w, more, i, h);
      }
    }
    forall h, i | FirstAppend(w, more, i, h)
      ensures h in next.payloads && more[i] == DoAppend(next.payloads[h])
    {
      if i < |ops| {
        assert FirstAppend(w, ops, i, h);
      }
    }
  }

  lemma OnlyHash(w: World, event: Json, hash: string)
    requires HashedAs(w, event, hash)
    ensures forall h :: HashedAs(w, event, h) ==> h == hash
  {
    hide Canon, Ref;
  }

  lemma RevocationsStay(ops: seq<Op>, op: Op, m: map<Key, string>)
    requires Revoked(ops, m) && !op.DoInsert?
    ensures Revoked(ops + [op], m)
  {
    hide Inserts;
    var more := ops + [op];
    MoreInserts(ops, op);
    assert forall i, k :: Inserts(more, i, k) <==> Inserts(ops, i, k);
    forall k, i | LastInsert(more, i, k) ensures k in m && more[i] == DoInsert(k, m[k]) {
      assert LastInsert(ops, i, k);
    }
  }

  lemma RevocationsGrow(ops: seq<Op>, key: Key, at: string, m: map<Key, string>)
    requires Revoked(ops, m)
    ensures Revoked(ops + [DoInsert(key, at)], m[key := at])
  {
    hide Inserts;
    var more := ops + [DoInsert(key, at)];
    MoreInserts(ops, DoInsert(key, at));
    assert Inserts(more, |ops|, key);
    var next := m[key := at];
    forall k ensures k in next <==> exists i :: Inserts(more, i, k) {
      if k in m {
        var i :| Inserts(ops, i, k);
        assert Inserts(more, i, k);
      }
    }
    forall k, i | LastInsert(more, i, k) ensures k in next && more[i] == DoInsert(k, next[k]) {
      if k != key {
        assert LastInsert(ops, i, k);
      }
    }
  }

  // ---------- Runs ----------

  lemma StepRecorded(w: World, ops: seq<Op>, s: Image, op: Op, t: Image)
    requires Ledgered(w, ops, s.ledger) && Revoked(ops, s.revocations) && Step(w, s, op, t)
    ensures Ledgered(w, ops + [op], t.ledger) && Revoked(ops + [op], t.revocations)
  {
    hide Ledgered, Revoked, Canon, Ref, RenderLog, LogLine, Holds;
    match op
    case DoAppend(event) =>
      RevocationsStay(ops, op, s.revocations);
      if exists h :: HashedAs(w, event, h) && h !in s.ledger.payloads {
        var h :| HashedAs(w, event, h) && h !in s.ledger.payloads;
        LedgerGrows(w, ops, event, h, s.ledger);
      } else {
        LedgerStays(w, ops, op, s.ledger);
      }
    case DoInsert(k, at) =>
      LedgerStays(w, ops, op, s.ledger);
      RevocationsGrow(ops, k, at, s.revocations);
    case DoCompact =>
      LedgerStays(w, ops, op, s.ledger);
      RevocationsStay(ops, op, s.revocations);
  }

  lemma NothingRecorded(w: World)
    ensures Ledgered(w, [], Ledger([], map[])) && Revoked([], map[])
  {
    hide HashedAs;
    assert Appearances(w, [], [], []);
  }

  /**
   * After any run from an empty directory, memory holds exactly the events that were appended, in the order of their
   * first appends, and exactly the revocations that were inserted, each with its last time.
   */
  lemma {:induction false} MemoryIsHistory(w: World, ops: seq<Op>, states: seq<Image>, n: nat)
    requires Runs(w, ops, states) && n <= |ops|
    ensures Ledgered(w, ops[..n], states[n].ledger) && Revoked(ops[..n], states[n].revocations)
    decreases n
  {
    hide Ledgered, Revoked, Step;
    if n == 0 {
      NothingRecorded(w);
    } else {
      MemoryIsHistory(w, ops, states, n - 1);
      StepRecorded(w, ops[..n - 1], states[n - 1], ops[n - 1], states[n]);
      assert ops[..n] == ops[..n - 1] + [ops[n - 1]];
    }
  }
}
