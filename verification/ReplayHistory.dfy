/** The receiver's decisions told from the packets alone, without its deque or its index. */
module ReplayHistory {
  import opened Common
  import opened Replay

  predicate Late(p: Packet, now: string) { p.expiresAt.Some? && Less(p.expiresAt.value, now) }

  predicate Early(p: Packet, now: string) { Less(now, p.createdAt) }

  /** At most the last `n` elements. */
  function Last<T>(n: nat, s: seq<T>): seq<T> { if |s| <= n then s else s[|s| - n..] }

  /** The ids accepted so far: a packet in time whose id is not among the last `capacity` accepted ones. */
  function Accepted(capacity: nat, xs: seq<Sighting>): seq<string>
    decreases |xs|
  {
    if xs == [] then []
    else
      var ids, x := Accepted(capacity, xs[..|xs| - 1]), xs[|xs| - 1];
      if Late(x.packet, x.now) || Early(x.packet, x.now) || x.packet.id in Last(capacity, ids) then ids
      else ids + [x.packet.id]
  }

  function Ops(xs: seq<Sighting>): seq<Op> { seq(|xs|, i requires 0 <= i < |xs| => ObserveOp(xs[i].packet, xs[i].now)) }

  function IdList(seen: seq<Seen>): seq<string> { seq(|seen|, i requires 0 <= i < |seen| => seen[i].id) }

  lemma IdsListed(seen: seq<Seen>, id: string)
    ensures id in Ids(seen) <==> id in IdList(seen)
  {
    if id in Ids(seen) {
      var i :| 0 <= i < |seen| && seen[i].id == id;
      assert IdList(seen)[i] == id;
    }
  }

  lemma LastAppend<T>(n: nat, s: seq<T>, x: T)
    requires n > 0
    ensures var t := Last(n, s); Last(n, s + [x]) == (if |t| >= n then t[1..] else t) + [x]
  {
  }

  lemma RecordLists(st: State, p: Packet)
    requires Inv(st)
    ensures var ids := IdList(st.seen);
      IdList(Record(st, p).seen) == (if |ids| >= Capacity(st.window) then ids[1..] else ids) + [p.id]
  {
    hide Ids;
  }

  lemma OneOp(st: State, op: Op)
    ensures Run(st, [op]) == Step(st, op)
  {
    assert [op][1..] == [];
  }

  /** The deque holds exactly the last `max(1, window)` accepted ids. */
  predicate Mirrors(st: State, window: nat, xs: seq<Sighting>) {
    && Inv(st) && st.window == window
    && IdList(st.seen) == Last(Capacity(window), Accepted(Capacity(window), xs))
  }

  lemma MirrorsStep(st: State, window: nat, before: seq<Sighting>, x: Sighting)
    requires Mirrors(st, window, before)
    ensures Mirrors(Observe(st, x.packet, x.now), window, before + [x])
  {
    hide Accepted, Inv, Record, IdList, Last, Ids;
    var cap := Capacity(window);
    StepKeepsInv(st, ObserveOp(x.packet, x.now));
    IndexIsIds(st);
    IdsListed(st.seen, x.packet.id);
    HistoryStep(cap, before, x);
    RecordLists(st, x.packet);
    LastAppend(cap, Accepted(cap, before), x.packet.id);
  }

  lemma MirrorsNothing(window: nat)
    ensures Mirrors(New(window), window, [])
  {
  }

  lemma {:induction false} WindowIsHistory(window: nat, xs: seq<Sighting>)
    ensures Mirrors(Run(New(window), Ops(xs)), window, xs)
    decreases |xs|
  {
    hide Mirrors, Observe;
    if xs == [] {
      MirrorsNothing(window);
      assert Ops(xs) == [];
    } else {
      var n := |xs| - 1;
      var before, x := xs[..n], xs[n];
      var op := ObserveOp(x.packet, x.now);
      assert xs == before + [x] && Ops(xs) == Ops(before) + [op];
      hide Ops;
      WindowIsHistory(window, before);
      RunAppend(New(window), Ops(before), [op]);
      OneOp(Run(New(window), Ops(before)), op);
      hide Run;
      MirrorsStep(Run(New(window), Ops(before)), window, before, x);
    }
  }

  lemma IndexIsIds(st: State)
    requires Inv(st)
    ensures st.index == Ids(st.seen)
  {
  }

  lemma HistoryStep(capacity: nat, before: seq<Sighting>, x: Sighting)
    ensures var ids := Accepted(capacity, before);
      Accepted(capacity, before + [x]) ==
        if Late(x.packet, x.now) || Early(x.packet, x.now) || x.packet.id in Last(capacity, ids) then ids
        else ids + [x.packet.id]
  {
    assert (before + [x])[..|before|] == before;
  }

  /**
   * After any packets, the next one is rejected as expired exactly if it is late, as future-dated exactly if it is
   * only early, as replayed exactly if it is in time and its id is among the last `max(1, window)` accepted, and
   * accepted otherwise.
   */
  lemma DecidedExactly(window: nat, xs: seq<Sighting>, p: Packet, now: string)
    ensures var d := Judge(Run(New(window), Ops(xs)), p, now);
      var recent := Last(Capacity(window), Accepted(Capacity(window), xs));
      && (d == Reject(Expired) <==> Late(p, now))
      && (d == Reject(FutureDated) <==> !Late(p, now) && Early(p, now))
      && (d == Reject(Replayed) <==> !Late(p, now) && !Early(p, now) && p.id in recent)
      && (d == Accept <==> !Late(p, now) && !Early(p, now) && p.id !in recent)
  {
    hide Run, Accepted, Inv, IdList, Last, Ids;
    var st := Run(New(window), Ops(xs));
    WindowIsHistory(window, xs);
    IndexIsIds(st);
    IdsListed(st.seen, p.id);
  }

  // ---------- Expiry calls ----------

  /** The kept entries stand at increasing places of the old deque. */
  predicate Picks(kept: seq<Seen>, seen: seq<Seen>, places: seq<nat>) {
    && |places| == |kept|
    && (forall a :: 0 <= a < |kept| ==> places[a] < |seen| && kept[a] == seen[places[a]])
    && (forall a, b :: 0 <= a < b < |places| ==> places[a] < places[b])
  }

  function Shifted(places: seq<nat>): seq<nat> { seq(|places|, a requires 0 <= a < |places| => places[a] + 1) }

  lemma ShiftedHolds(places: seq<nat>, i: nat)
    ensures i in Shifted(places) <==> i > 0 && i - 1 in places
  {
    if i > 0 && i - 1 in places {
      var a :| 0 <= a < |places| && places[a] == i - 1;
      assert Shifted(places)[a] == i;
    }
  }

  lemma PicksShifted(kept: seq<Seen>, seen: seq<Seen>, places: seq<nat>)
    requires seen != [] && Picks(kept, seen[1..], places)
    ensures Picks(kept, seen, Shifted(places))
    ensures Picks([seen[0]] + kept, seen, [0] + Shifted(places))
  {
    var shifted := Shifted(places);
    assert Picks(kept, seen, shifted);
    var all: seq<nat> := [0] + shifted;
    assert forall a :: 1 <= a < |all| ==> all[a] == shifted[a - 1];
  }

  /** The entries that are not stale are kept, in their order. */
  lemma {:induction false} SurvivorsExactly(seen: seq<Seen>, before: string) returns (places: seq<nat>)
    ensures Picks(Survivors(seen, before), seen, places)
    ensures forall i: nat :: i in places <==> i < |seen| && !Stale(seen[i], before)
  {
    hide Stale, Picks;
    if seen == [] {
      places := [];
      NoPicks();
    } else {
      var more := SurvivorsExactly(seen[1..], before);
      var first: seq<nat> := if Stale(seen[0], before) then [] else [0];
      places := first + Shifted(more);
      PicksShifted(Survivors(seen[1..], before), seen, more);
      assert [] + Shifted(more) == Shifted(more);
      assert Picks(Survivors(seen, before), seen, places) by {
        assert [] + Survivors(seen[1..], before) == Survivors(seen[1..], before);
      }
      hide Survivors, Shifted;
      forall i: nat ensures i in places <==> i < |seen| && !Stale(seen[i], before) {
        ShiftedHolds(more, i);
      }
    }
  }

  lemma NoPicks()
    ensures Picks([], [], [])
  {
  }

  /** After an expiry call an id is known exactly if it was known with an entry that is not stale. */
  lemma ExpiryExactly(window: nat, ops: seq<Op>, before: string, id: string)
    ensures var st := Run(New(window), ops);
      id in Run(New(window), ops + [ExpireOp(before)]).index <==>
        exists i :: 0 <= i < |st.seen| && st.seen[i].id == id && !Stale(st.seen[i], before)
  {
    var st := Run(New(window), ops);
    RunAppend(New(window), ops, [ExpireOp(before)]);
    OneOp(st, ExpireOp(before));
    var kept := Survivors(st.seen, before);
    var places := SurvivorsExactly(st.seen, before);
    hide Run, Stale, Survivors;
    assert Picks(kept, st.seen, places);
    if i :| 0 <= i < |st.seen| && st.seen[i].id == id && !Stale(st.seen[i], before) {
      var a :| 0 <= a < |places| && places[a] == i;
      assert kept[a].id == id;
    }
    if id in Ids(kept) {
      var a :| 0 <= a < |kept| && kept[a].id == id;
      assert places[a] in places;
    }
  }
}
