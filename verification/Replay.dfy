/** Replay protection: the deque-and-index receiver of `constrained.rs` and the linear-scan one of `nonce_cache.rs`. */
module Replay {
  import opened Common

  datatype Packet = Packet(id: string, createdAt: string, expiresAt: Option<string>)

  datatype Reason = Replayed | Expired | FutureDated

  datatype Decision = Accept | Reject(reason: Reason)

  /** `(packet_id, expires_at)` as recorded in the window. */
  datatype Seen = Seen(id: string, expiry: string)

  datatype State = State(seen: seq<Seen>, index: set<string>, window: nat)

  function Recorded(expiresAt: Option<string>): string { if expiresAt.Some? then expiresAt.value else "" }

  function New(window: nat): State { State([], {}, window) }

  function Judge(st: State, p: Packet, now: string): Decision {
    if p.expiresAt.Some? && Less(p.expiresAt.value, now) then Reject(Expired)
    else if Less(now, p.createdAt) then Reject(FutureDated)
    else if p.id in st.index then Reject(Replayed)
    else Accept
  }

  /** The window after an accepted packet: the oldest entry makes room when the window is full. */
  function Record(st: State, p: Packet): State {
    var full := |st.seen| >= st.window && |st.seen| > 0;
    var kept := if full then st.seen[1..] else st.seen;
    var index := if full then st.index - {st.seen[0].id} else st.index;
    State(kept + [Seen(p.id, Recorded(p.expiresAt))], index + {p.id}, st.window)
  }

  function Observe(st: State, p: Packet, now: string): State {
    if Judge(st, p, now).Accept? then Record(st, p) else st
  }

  predicate Stale(e: Seen, before: string) { e.expiry != "" && Less(e.expiry, before) }

  function Survivors(seen: seq<Seen>, before: string): seq<Seen> {
    if seen == [] then []
    else (if Stale(seen[0], before) then [] else [seen[0]]) + Survivors(seen[1..], before)
  }

  function Ids(seen: seq<Seen>): set<string> { set i | 0 <= i < |seen| :: seen[i].id }

  function Expire(st: State, before: string): State {
    var kept := Survivors(st.seen, before);
    State(kept, Ids(kept), st.window)
  }

  // ---------- The program ----------

  class PacketReceiver {
    var seen: seq<Seen>
    var index: set<string>
    const windowSize: nat

    ghost function Abs(): State
      reads this
    {
      State(seen, index, windowSize)
    }

    constructor (windowSize: Option<nat>)
      ensures Abs() == New(if windowSize.Some? then windowSize.value else 4096)
    {
      seen, index := [], {};
      this.windowSize := if windowSize.Some? then windowSize.value else 4096;
    }

    method ObservePacket(packet: Packet, now: string) returns (d: Decision)
      modifies this
      ensures d == Judge(old(Abs()), packet, now)
      ensures Abs() == Observe(old(Abs()), packet, now)
    {
      if packet.expiresAt.Some? {
        if Less(packet.expiresAt.value, now) {
          return Reject(Expired);
        }
      }
      if Less(now, packet.createdAt) {
        return Reject(FutureDated);
      }
      if packet.id in index {
        return Reject(Replayed);
      }
      if |seen| >= windowSize {
        if |seen| > 0 {
          var oldest := seen[0];
          seen := seen[1..];
          index := index - {oldest.id};
        }
      }
      seen := seen + [Seen(packet.id, Recorded(packet.expiresAt))];
      index := index + {packet.id};
      d := Accept;
    }

    method ExpireOlderThan(before: string) returns (removed: nat)
      modifies this
      ensures Abs() == Expire(old(Abs()), before)
      ensures removed == |old(seen)| - |seen|
    {
      hide Survivors, Ids, Less;
      SurvivorsNone(before);
      removed := 0;
      var survivors: seq<Seen>, newIndex: set<string> := [], {};
      var drained := seen;
      seen := [];
      var i := 0;
      assert drained[0..] == drained && [] + Survivors(drained, before) == Survivors(drained, before);
      while i < |drained|
        invariant 0 <= i <= |drained|
        invariant survivors + Survivors(drained[i..], before) == Survivors(drained, before)
        invariant newIndex == Ids(survivors)
        invariant removed == i - |survivors|
      {
        ghost var rest := drained[i..];
        assert rest[1..] == drained[i + 1..];
        SurvivorsStep(survivors, rest, before);
        var entry := drained[i];
        if Stale(entry, before) {
          removed := removed + 1;
        } else {
          newIndex := newIndex + {entry.id};
          IdsAppend(survivors, entry);
          survivors := survivors + [entry];
        }
        i := i + 1;
      }
      assert drained[i..] == [] && survivors + [] == survivors;
      seen := survivors;
      index := newIndex;
    }
  }

  lemma SurvivorsNone(before: string)
    ensures Survivors([], before) == [] && Ids([]) == {}
  {
  }

  lemma SurvivorsStep(kept: seq<Seen>, rest: seq<Seen>, before: string)
    requires rest != []
    ensures kept + Survivors(rest, before) ==
      (if Stale(rest[0], before) then kept else kept + [rest[0]]) + Survivors(rest[1..], before)
  {
    hide Less;
    var more := Survivors(rest[1..], before);
    if Stale(rest[0], before) {
      assert Survivors(rest, before) == [] + more == more;
    } else {
      assert kept + ([rest[0]] + more) == kept + [rest[0]] + more;
    }
  }

  lemma IdsAppend(seen: seq<Seen>, e: Seen)
    ensures Ids(seen + [e]) == Ids(seen) + {e.id}
  {
    var s := seen + [e];
    assert forall i :: 0 <= i < |seen| ==> s[i].id == seen[i].id;
    assert s[|seen|].id == e.id;
  }

  // ---------- Invariant over every run ----------

  datatype Op = ObserveOp(packet: Packet, now: string) | ExpireOp(before: string)

  function Step(st: State, op: Op): State {
    match op
    case ObserveOp(p, now) => Observe(st, p, now)
    case ExpireOp(before) => Expire(st, before)
  }

  function Run(st: State, ops: seq<Op>): State
    decreases ops
  {
    if ops == [] then st else Run(Step(st, ops[0]), ops[1..])
  }

  function Capacity(window: nat): nat { if window == 0 then 1 else window }

  predicate DistinctIds(seen: seq<Seen>) { forall i, j :: 0 <= i < j < |seen| ==> seen[i].id != seen[j].id }

  /** The index mirrors the deque, which holds no id twice and never outgrows the window. */
  predicate Inv(st: State) {
    st.index == Ids(st.seen) && DistinctIds(st.seen) && |st.seen| <= Capacity(st.window)
  }

  lemma RecordKeepsInv(st: State, p: Packet)
    requires Inv(st) && p.id !in st.index
    ensures Inv(Record(st, p)) && Record(st, p).window == st.window
  {
    var full := |st.seen| >= st.window && |st.seen| > 0;
    var kept := if full then st.seen[1..] else st.seen;
    if full {
      assert st.seen == [st.seen[0]] + kept;
      assert forall i :: 0 <= i < |kept| ==> kept[i] == st.seen[i + 1];
      assert Ids(kept) == Ids(st.seen) - {st.seen[0].id};
    }
    IdsAppend(kept, Seen(p.id, Recorded(p.expiresAt)));
  }

  lemma {:induction false} SurvivorsDistinct(seen: seq<Seen>, before: string)
    requires DistinctIds(seen)
    ensures DistinctIds(Survivors(seen, before)) && |Survivors(seen, before)| <= |seen|
    ensures forall e :: e in Survivors(seen, before) ==> e in seen && !Stale(e, before)
  {
    if seen != [] {
      SurvivorsDistinct(seen[1..], before);
      var more := Survivors(seen[1..], before);
      forall i | 0 <= i < |more| ensures more[i].id != seen[0].id {
        assert more[i] in seen[1..];
      }
    }
  }

  lemma StepKeepsInv(st: State, op: Op)
    requires Inv(st)
    ensures Inv(Step(st, op)) && Step(st, op).window == st.window
  {
    match op
    case ObserveOp(p, now) =>
      if Judge(st, p, now).Accept? {
        RecordKeepsInv(st, p);
      }
    case ExpireOp(before) =>
      SurvivorsDistinct(st.seen, before);
  }

  /** From a fresh receiver, whatever packets and expiry calls follow. */
  lemma {:induction false} RunKeepsInv(st: State, ops: seq<Op>)
    requires Inv(st)
    ensures Inv(Run(st, ops)) && Run(st, ops).window == st.window
    decreases ops
  {
    if ops != [] {
      StepKeepsInv(st, ops[0]);
      RunKeepsInv(Step(st, ops[0]), ops[1..]);
    }
  }

  lemma ReceiverInvariant(window: nat, ops: seq<Op>)
    ensures var st := Run(New(window), ops);
            st.index == Ids(st.seen) && DistinctIds(st.seen) && |st.seen| <= Capacity(window)
  {
    RunKeepsInv(New(window), ops);
  }

  // ---------- How soon an id can be accepted again ----------

  function Time(op: Op): string { match op case ObserveOp(_, now) => now case ExpireOp(before) => before }

  /** Clock readings never go back, and every id keeps one expiry. */
  predicate Orderly(ops: seq<Op>, clock: string, expiryOf: string -> Option<string>) {
    ops == [] || (
      && !Less(Time(ops[0]), clock)
      && (ops[0].ObserveOp? ==> ops[0].packet.expiresAt == expiryOf(ops[0].packet.id))
      && Orderly(ops[1..], Time(ops[0]), expiryOf))
  }

  /** Every recorded expiry is the one its id is known to have. */
  predicate Agrees(st: State, expiryOf: string -> Option<string>) {
    forall i :: 0 <= i < |st.seen| ==> st.seen[i].expiry == Recorded(expiryOf(st.seen[i].id))
  }

  predicate Accepts(st: State, op: Op) { op.ObserveOp? && Judge(st, op.packet, op.now).Accept? }

  /** How many packets other than `id` are accepted during a run. */
  function OthersAccepted(st: State, ops: seq<Op>, id: string): nat
    decreases ops
  {
    if ops == [] then 0
    else
      var one := if Accepts(st, ops[0]) && ops[0].packet.id != id then 1 else 0;
      one + OthersAccepted(Step(st, ops[0]), ops[1..], id)
  }

  lemma StepKeepsAgreement(st: State, op: Op, expiryOf: string -> Option<string>)
    requires Inv(st) && Agrees(st, expiryOf)
    requires op.ObserveOp? ==> op.packet.expiresAt == expiryOf(op.packet.id)
    ensures Agrees(Step(st, op), expiryOf)
  {
    if op.ExpireOp? {
      SurvivorsDistinct(st.seen, op.before);
      var kept := Survivors(st.seen, op.before);
      forall i | 0 <= i < |kept| ensures kept[i].expiry == Recorded(expiryOf(kept[i].id)) {
        assert kept[i] in st.seen;
      }
    }
  }

  /** An id whose expiry has passed is never accepted while the clock does not go back. */
  lemma {:induction false} DeadStaysDead(st: State, ops: seq<Op>, last: Op, id: string, clock: string,
                                         expiryOf: string -> Option<string>)
    requires Orderly(ops + [last], clock, expiryOf)
    requires last.ObserveOp? && last.packet.id == id
    requires expiryOf(id).Some? && Less(expiryOf(id).value, clock)
    ensures !Accepts(Run(st, ops), last)
    decreases ops
  {
    if ops == [] {
      assert (ops + [last])[0] == last;
      NotLessThanLater(expiryOf(id).value, clock, Time(last));
    } else {
      assert (ops + [last])[0] == ops[0] && (ops + [last])[1..] == ops[1..] + [last];
      NotLessThanLater(expiryOf(id).value, clock, Time(ops[0]));
      DeadStaysDead(Step(st, ops[0]), ops[1..], last, id, Time(ops[0]), expiryOf);
    }
  }

  lemma NotLessThanLater(a: string, b: string, c: string)
    requires Less(a, b) && !Less(c, b)
    ensures Less(a, c)
  {
    LessTotal(b, c);
    if Less(b, c) {
      LessTransitive(a, b, c);
    }
  }

  /** How many entries of the window arrived after `id`. */
  function Behind(seen: seq<Seen>, id: string): nat {
    if seen == [] then 0 else if seen[0].id == id then |seen| - 1 else Behind(seen[1..], id)
  }

  lemma {:induction false} BehindAppend(seen: seq<Seen>, id: string, e: Seen)
    requires id in Ids(seen)
    ensures Behind(seen + [e], id) == Behind(seen, id) + 1
  {
    var s := seen + [e];
    if seen[0].id != id {
      assert s[1..] == seen[1..] + [e];
      IdsTail(seen, id);
      BehindAppend(seen[1..], id, e);
    }
  }

  lemma IdsTail(seen: seq<Seen>, id: string)
    requires seen != [] && seen[0].id != id
    ensures id in Ids(seen) <==> id in Ids(seen[1..])
  {
    assert forall i :: 0 <= i < |seen[1..]| ==> seen[1..][i] == seen[i + 1];
    if id in Ids(seen) {
      var i :| 0 <= i < |seen| && seen[i].id == id;
      assert seen[1..][i - 1].id == id;
    }
  }

  /** Dropping stale entries removes `id` only if its own expiry is stale, and never lets more arrive behind it. */
  lemma {:induction false} SurvivorsBehind(seen: seq<Seen>, id: string, before: string)
    requires id in Ids(seen) && DistinctIds(seen)
    ensures id in Ids(Survivors(seen, before)) ==> Behind(Survivors(seen, before), id) <= Behind(seen, id)
    ensures id !in Ids(Survivors(seen, before)) ==> exists e :: e in seen && e.id == id && Stale(e, before)
  {
    var kept := Survivors(seen, before);
    var more := Survivors(seen[1..], before);
    SurvivorsDistinct(seen[1..], before);
    if seen[0].id == id {
      if Stale(seen[0], before) {
        assert seen[0] in seen;
        forall i | 0 <= i < |more| ensures more[i].id != id {
          assert more[i] in seen[1..];
        }
        assert kept == more;
      } else {
        assert kept[0].id == id;
      }
    } else {
      IdsTail(seen, id);
      SurvivorsBehind(seen[1..], id, before);
      if Stale(seen[0], before) {
        assert kept == more;
      } else {
        assert kept[1..] == more;
        IdsTail(kept, id);
      }
    }
  }

  /** Accepting another packet either pushes `id` one further from the back or evicts it from a full window. */
  lemma RecordBehind(st: State, p: Packet, id: string)
    requires Inv(st) && id in st.index && p.id != id
    ensures
      var st' := Record(st, p);
      if id in st'.index then Behind(st'.seen, id) == Behind(st.seen, id) + 1
      else Behind(st.seen, id) + 1 >= Capacity(st.window)
  {
    var full := |st.seen| >= st.window && |st.seen| > 0;
    var e := Seen(p.id, Recorded(p.expiresAt));
    if full {
      if st.seen[0].id != id {
        IdsTail(st.seen, id);
        BehindAppend(st.seen[1..], id, e);
      }
    } else {
      BehindAppend(st.seen, id, e);
    }
  }

  lemma {:induction false} SpacingFrom(st: State, ops: seq<Op>, last: Op, id: string, clock: string,
                                       expiryOf: string -> Option<string>)
    requires Inv(st) && Agrees(st, expiryOf) && id in st.index
    requires Orderly(ops + [last], clock, expiryOf)
    requires last.ObserveOp? && last.packet.id == id && Accepts(Run(st, ops), last)
    ensures Behind(st.seen, id) + OthersAccepted(st, ops, id) >= Capacity(st.window)
    decreases ops
  {
    if ops == [] {
      return;
    }
    var op, st' := ops[0], Step(st, ops[0]);
    assert (ops + [last])[0] == op && (ops + [last])[1..] == ops[1..] + [last];
    StepKeepsInv(st, op);
    StepKeepsAgreement(st, op, expiryOf);
    match op
    case ObserveOp(p, now) =>
      if Accepts(st, op) {
        RecordBehind(st, p, id);
      }
      if id in st'.index {
        SpacingFrom(st', ops[1..], last, id, now, expiryOf);
      }
    case ExpireOp(before) =>
      SurvivorsBehind(st.seen, id, before);
      if id in st'.index {
        SpacingFrom(st', ops[1..], last, id, before, expiryOf);
      } else {
        var e :| e in st.seen && e.id == id && Stale(e, before);
        var i :| 0 <= i < |st.seen| && st.seen[i] == e;
        DeadStaysDead(st', ops[1..], last, id, before, expiryOf);
      }
  }

  lemma {:induction false} RunAppend(st: State, a: seq<Op>, b: seq<Op>)
    ensures Run(st, a + b) == Run(Run(st, a), b)
    decreases a
  {
    if a == [] {
      assert a + b == b;
    } else {
      assert (a + b)[0] == a[0] && (a + b)[1..] == a[1..] + b;
      RunAppend(Step(st, a[0]), a[1..], b);
    }
  }

  lemma {:induction false} OrderlySuffix(a: seq<Op>, b: seq<Op>, clock: string, expiryOf: string -> Option<string>)
    requires Orderly(a + b, clock, expiryOf)
    ensures Orderly(b, if a == [] then clock else Time(a[|a| - 1]), expiryOf)
  {
    if a == [] {
      assert a + b == b;
    } else {
      assert (a + b)[0] == a[0] && (a + b)[1..] == a[1..] + b;
      OrderlySuffix(a[1..], b, Time(a[0]), expiryOf);
    }
  }

  lemma {:induction false} RunKeepsAgreement(st: State, a: seq<Op>, b: seq<Op>, clock: string,
                                             expiryOf: string -> Option<string>)
    requires Inv(st) && Agrees(st, expiryOf) && Orderly(a + b, clock, expiryOf)
    ensures Agrees(Run(st, a), expiryOf)
    decreases a
  {
    if a != [] {
      assert (a + b)[0] == a[0] && (a + b)[1..] == a[1..] + b;
      StepKeepsInv(st, a[0]);
      StepKeepsAgreement(st, a[0], expiryOf);
      RunKeepsAgreement(Step(st, a[0]), a[1..], b, Time(a[0]), expiryOf);
    }
  }

  /**
   * In a run whose clock never goes back and whose ids keep their expiry, two acceptances of one
   * id have at least a full window of other acceptances between them, expiry calls included.
   */
  lemma ReplaySpacing(window: nat, before: seq<Op>, first: Op, between: seq<Op>, second: Op, clock: string,
                      expiryOf: string -> Option<string>)
    requires first.ObserveOp? && second.ObserveOp? && first.packet.id == second.packet.id
    requires Orderly(before + ([first] + between + [second]), clock, expiryOf)
    requires Accepts(Run(New(window), before), first)
    requires Accepts(Run(New(window), before + [first] + between), second)
    ensures OthersAccepted(Run(New(window), before + [first]), between, first.packet.id) >= Capacity(window)
  {
    var id, rest := first.packet.id, [first] + between + [second];
    var st := Run(New(window), before);
    RunKeepsInv(New(window), before);
    RunKeepsAgreement(New(window), before, rest, clock, expiryOf);
    OrderlySuffix(before, rest, clock, expiryOf);
    assert rest[0] == first && rest[1..] == between + [second];
    RunAppend(New(window), before, [first]);
    RunAppend(New(window), before + [first], between);
    var st1 := Step(st, first);
    assert Run(st, [first]) == st1 by {
      assert [first][1..] == [];
    }
    StepKeepsInv(st, first);
    StepKeepsAgreement(st, first, expiryOf);
    var e := st1.seen[|st1.seen| - 1];
    assert e.id == id;
    BehindLast(st1.seen);
    SpacingFrom(st1, between, second, id, first.now, expiryOf);
  }

  lemma {:induction false} BehindLast(seen: seq<Seen>)
    requires seen != [] && DistinctIds(seen)
    ensures Behind(seen, seen[|seen| - 1].id) == 0
  {
    if |seen| > 1 {
      BehindLast(seen[1..]);
    }
  }

  // ---------- The linear-scan receiver ----------

  /** `PacketReceiver` of the embedded crate: the same window without an index, scanned linearly. */
  class EmbeddedReceiver {
    var seen: seq<Seen>
    const capacity: nat

    constructor (capacity: nat)
      ensures seen == [] && this.capacity == Capacity(capacity)
    {
      seen := [];
      this.capacity := if capacity < 1 then 1 else capacity;
    }

    method ObservePacket(id: string, expiresAt: Option<string>, now: string) returns (d: Decision)
      modifies this
      ensures d == ScanJudge(old(seen), id, expiresAt, now)
      ensures seen == if d.Accept? then ScanRecord(old(seen), capacity, id, expiresAt) else old(seen)
    {
      if expiresAt.Some? && Less(expiresAt.value, now) {
        return Reject(Expired);
      }
      if exists i :: 0 <= i < |seen| && seen[i].id == id {
        return Reject(Replayed);
      }
      if |seen| >= capacity && |seen| > 0 {
        seen := seen[1..];
      }
      seen := seen + [Seen(id, Recorded(expiresAt))];
      d := Accept;
    }
  }

  function ScanJudge(seen: seq<Seen>, id: string, expiresAt: Option<string>, now: string): Decision {
    if expiresAt.Some? && Less(expiresAt.value, now) then Reject(Expired)
    else if exists i :: 0 <= i < |seen| && seen[i].id == id then Reject(Replayed)
    else Accept
  }

  function ScanRecord(seen: seq<Seen>, capacity: nat, id: string, expiresAt: Option<string>): seq<Seen> {
    (if |seen| >= capacity && |seen| > 0 then seen[1..] else seen) + [Seen(id, Recorded(expiresAt))]
  }

  datatype Sighting = Sighting(packet: Packet, now: string)

  /** The linear scan does not look at creation times: only an expired packet may be future-dated unnoticed. */
  predicate Unremarkable(x: Sighting) {
    !Less(x.now, x.packet.createdAt) || (x.packet.expiresAt.Some? && Less(x.packet.expiresAt.value, x.now))
  }

  function Decisions(st: State, xs: seq<Sighting>): seq<Decision>
    decreases xs
  {
    if xs == [] then []
    else [Judge(st, xs[0].packet, xs[0].now)] + Decisions(Observe(st, xs[0].packet, xs[0].now), xs[1..])
  }

  function ScanDecisions(seen: seq<Seen>, capacity: nat, xs: seq<Sighting>): seq<Decision>
    decreases xs
  {
    if xs == [] then []
    else
      var p, now := xs[0].packet, xs[0].now;
      var d := ScanJudge(seen, p.id, p.expiresAt, now);
      [d] + ScanDecisions(if d.Accept? then ScanRecord(seen, capacity, p.id, p.expiresAt) else seen, capacity, xs[1..])
  }

  lemma {:induction false} DecisionsAgree(st: State, xs: seq<Sighting>)
    requires Inv(st)
    ensures Decisions(st, xs) == ScanDecisions(st.seen, Capacity(st.window), xs) <==>
            forall i :: 0 <= i < |xs| ==> Unremarkable(xs[i])
    decreases xs
  {
    if xs != [] {
      var p, now := xs[0].packet, xs[0].now;
      var a, b := Decisions(st, xs), ScanDecisions(st.seen, Capacity(st.window), xs);
      if Unremarkable(xs[0]) {
        assert a[0] == b[0];
        StepKeepsInv(st, ObserveOp(p, now));
        DecisionsAgree(Observe(st, p, now), xs[1..]);
        assert a == b <==> a[1..] == b[1..];
        assert forall i :: 0 <= i < |xs| ==> xs[i] == if i == 0 then xs[0] else xs[1..][i - 1];
      } else {
        assert a[0] != b[0];
      }
    }
  }

  /**
   * The indexed receiver decides every packet of a run as the linear scan does exactly when no
   * unexpired packet is dated in the future, which only the indexed receiver checks.
   */
  lemma IndexRefinesScan(window: nat, xs: seq<Sighting>)
    ensures Decisions(New(window), xs) == ScanDecisions([], Capacity(window), xs) <==>
            forall i :: 0 <= i < |xs| ==> Unremarkable(xs[i])
  {
    DecisionsAgree(New(window), xs);
  }
}
