/** The approval queue of `approval.rs`: requests wait for a response, a timeout or a drain. */
module Approvals {
  import opened Common

  datatype Decision = Approve | Deny

  datatype Resolver = Responder | Timer | Drain

  /** What the future returned by `push` yields. `Closed` is the error for a dropped response channel. */
  datatype Outcome = Answered(decision: Decision, via: Resolver) | Closed

  /** Identifies one accepted `push`, with its own response channel and its own timer. */
  type Ticket = nat

  /**
   * `pending` maps request ids to the push that waits under that id, `ids` names the request of
   * every accepted push, and `outcomes` holds what has been sent to each push.
   */
  datatype State = State(pending: map<string, Ticket>, ids: seq<string>, outcomes: map<Ticket, Outcome>)

  const EMPTY := State(map[], [], map[])

  datatype Step = Push(id: string) | Respond(id: string, decision: Decision) | TimerFires(ticket: Ticket) | DrainDeny

  function Without<K, V>(m: map<K, V>, k: K): map<K, V> { m - {k} }

  /** `push`, up to the point where it starts to wait. Reusing a waiting id drops the channel that was there. */
  function AfterPush(st: State, max: nat, id: string): State {
    if |st.pending| >= max then st
    else
      var outcomes := if id in st.pending then st.outcomes[st.pending[id] := Closed] else st.outcomes;
      State(st.pending[id := |st.ids|], st.ids + [id], outcomes)
  }

  function Resolve(st: State, id: string, outcome: Outcome): State {
    if id in st.pending then
      st.(pending := Without(st.pending, id), outcomes := st.outcomes[st.pending[id] := outcome])
    else st
  }

  /** The pushes waiting under some of the ids. */
  function WaitingUnder(pending: map<string, Ticket>, ids: set<string>): set<Ticket> {
    set id | id in ids && id in pending :: pending[id]
  }

  function Denied(tickets: set<Ticket>): map<Ticket, Outcome> { map t | t in tickets :: Answered(Deny, Drain) }

  function AfterDrain(st: State): State {
    State(map[], st.ids, st.outcomes + Denied(WaitingUnder(st.pending, st.pending.Keys)))
  }

  /** A timer belongs to an accepted push and acts on whatever waits under that push's id. */
  function After(st: State, max: nat, step: Step): State {
    match step
    case Push(id) => AfterPush(st, max, id)
    case Respond(id, decision) => Resolve(st, id, Answered(decision, Responder))
    case TimerFires(t) => if t < |st.ids| then Resolve(st, st.ids[t], Answered(Deny, Timer)) else st
    case DrainDeny => AfterDrain(st)
  }

  function Run(st: State, max: nat, steps: seq<Step>): State
    decreases steps
  {
    if steps == [] then st else Run(After(st, max, steps[0]), max, steps[1..])
  }

  // ---------- The program ----------

  class ApprovalQueue {
    var pending: map<string, Ticket>
    var ids: seq<string>
    var outcomes: map<Ticket, Outcome>
    const maxPending: nat

    ghost function Abs(): State
      reads this
    {
      State(pending, ids, outcomes)
    }

    constructor (maxPending: nat)
      ensures Abs() == EMPTY && this.maxPending == maxPending
    {
      pending, ids, outcomes := map[], [], map[];
      this.maxPending := maxPending;
    }

    method Send(t: Ticket, outcome: Outcome)
      modifies this`outcomes
      ensures outcomes == old(outcomes)[t := outcome]
    {
      outcomes := outcomes[t := outcome];
    }

    /** None is the queue-full error. */
    method Enqueue(id: string) returns (ticket: Option<Ticket>)
      modifies this
      ensures Abs() == After(old(Abs()), maxPending, Push(id))
      ensures ticket.None? <==> |old(pending)| >= maxPending
      ensures ticket.Some? ==> ticket.value == |old(ids)| && pending[id] == ticket.value
    {
      if |pending| >= maxPending {
        return None;
      }
      if id in pending {
        Send(pending[id], Closed);
      }
      var t := |ids|;
      ids := ids + [id];
      pending := pending[id := t];
      ticket := Some(t);
    }

    method Answer(id: string, decision: Decision) returns (found: bool)
      modifies this
      ensures Abs() == After(old(Abs()), maxPending, Respond(id, decision))
      ensures found <==> id in old(pending)
    {
      if id !in pending {
        return false;
      }
      var t := pending[id];
      pending := Without(pending, id);
      Send(t, Answered(decision, Responder));
      found := true;
    }

    /** The body of the task spawned by the push that got `ticket`, after its sleep. */
    method Timeout(ticket: Ticket)
      requires ticket < |ids|
      modifies this
      ensures Abs() == After(old(Abs()), maxPending, TimerFires(ticket))
    {
      var id := ids[ticket];
      if id in pending {
        var t := pending[id];
        pending := Without(pending, id);
        Send(t, Answered(Deny, Timer));
      }
    }

    method DenyAll()
      modifies this
      ensures Abs() == After(old(Abs()), maxPending, DrainDeny)
    {
      hide Denied, WaitingUnder;
      var items := pending;
      pending := map[];
      ghost var start := outcomes;
      var left := items.Keys;
      DenyNone(start, items);
      assert items.Keys - left == {};
      while left != {}
        invariant left <= items.Keys
        invariant pending == map[] && ids == old(ids)
        invariant outcomes == start + Denied(WaitingUnder(items, items.Keys - left))
        decreases |left|
      {
        var id :| id in left;
        ghost var before := left;
        Send(items[id], Answered(Deny, Drain));
        left := left - {id};
        DenyOne(start, items, items.Keys - before, id);
        assert items.Keys - left == items.Keys - before + {id};
      }
      assert items.Keys - left == items.Keys;
    }
  }

  lemma DenyNone(start: map<Ticket, Outcome>, items: map<string, Ticket>)
    ensures start + Denied(WaitingUnder(items, {})) == start
  {
  }

  lemma DenyOne(start: map<Ticket, Outcome>, items: map<string, Ticket>, done: set<string>, id: string)
    requires id in items
    ensures (start + Denied(WaitingUnder(items, done)))[items[id] := Answered(Deny, Drain)]
         == start + Denied(WaitingUnder(items, done + {id}))
  {
    var a, b := WaitingUnder(items, done), WaitingUnder(items, done + {id});
    forall t | t in b ensures t in a || t == items[id] {
      var k :| k in done + {id} && k in items && items[k] == t;
    }
    assert b == a + {items[id]};
  }

  // ---------- What every interleaving keeps ----------

  /** Each accepted push waits under its own id or has its outcome, never both; the queue never overflows. */
  predicate Inv(st: State, max: nat) {
    && (forall id :: id in st.pending ==> st.pending[id] < |st.ids| && st.ids[st.pending[id]] == id)
    && (forall t :: 0 <= t < |st.ids| ==> (t in st.outcomes <==> !WaitsAs(st, t)))
    && (forall t :: t in st.outcomes ==> t < |st.ids|)
    && (forall t :: t in st.outcomes && st.outcomes[t].Answered? && st.outcomes[t].decision.Approve? ==>
      st.outcomes[t].via.Responder?)
    && |st.pending| <= max
  }

  predicate WaitsAs(st: State, t: Ticket)
    requires t < |st.ids|
  {
    st.ids[t] in st.pending && st.pending[st.ids[t]] == t
  }

  lemma SizeAfterInsert(m: map<string, Ticket>, id: string, t: Ticket)
    ensures |m[id := t]| <= |m| + 1
  {
    assert m[id := t].Keys == m.Keys + {id};
    if id in m {
      assert m[id := t].Keys == m.Keys;
    } else {
      assert |m.Keys + {id}| == |m.Keys| + 1;
    }
  }

  lemma SizeAfterRemove(m: map<string, Ticket>, id: string)
    ensures |Without(m, id)| <= |m|
  {
    assert Without(m, id).Keys <= m.Keys;
    SubsetSize(Without(m, id).Keys, m.Keys);
  }

  lemma SubsetSize<T>(a: set<T>, b: set<T>)
    requires a <= b
    ensures |a| <= |b|
  {
    assert b == a + (b - a);
  }

  lemma PushKeepsInv(st: State, max: nat, id: string)
    requires Inv(st, max)
    ensures Inv(AfterPush(st, max, id), max)
  {
    SizeAfterInsert(st.pending, id, |st.ids|);
    var st' := AfterPush(st, max, id);
    if |st.pending| < max {
      forall t | 0 <= t < |st'.ids| ensures t in st'.outcomes <==> !WaitsAs(st', t) {
        if t < |st.ids| {
          assert st'.ids[t] == st.ids[t];
        }
      }
    }
  }

  lemma ResolveKeepsInv(st: State, max: nat, id: string, outcome: Outcome)
    requires Inv(st, max) && outcome.Answered? && (outcome.decision.Approve? ==> outcome.via.Responder?)
    ensures Inv(Resolve(st, id, outcome), max)
  {
    SizeAfterRemove(st.pending, id);
    var st' := Resolve(st, id, outcome);
    forall t | 0 <= t < |st'.ids| ensures t in st'.outcomes <==> !WaitsAs(st', t) {
      assert t in st.outcomes <==> !WaitsAs(st, t);
    }
  }

  lemma DrainedOutcome(start: map<Ticket, Outcome>, tickets: set<Ticket>, t: Ticket)
    ensures var m := start + Denied(tickets);
            && (t in m <==> t in start || t in tickets)
            && (t in m ==> m[t] == if t in tickets then Answered(Deny, Drain) else start[t])
  {
  }

  lemma WaitingMembers(st: State, max: nat, t: Ticket)
    requires Inv(st, max)
    ensures t in WaitingUnder(st.pending, st.pending.Keys) <==> t < |st.ids| && WaitsAs(st, t)
  {
    if t in WaitingUnder(st.pending, st.pending.Keys) {
      var id :| id in st.pending && st.pending[id] == t;
    }
    if t < |st.ids| && WaitsAs(st, t) {
      assert st.pending[st.ids[t]] == t;
    }
  }

  lemma DrainKeepsInv(st: State, max: nat)
    requires Inv(st, max)
    ensures Inv(AfterDrain(st), max)
  {
    hide Denied, WaitingUnder;
    var st', waiting := AfterDrain(st), WaitingUnder(st.pending, st.pending.Keys);
    forall t: Ticket
      ensures t in st'.outcomes <==> t < |st.ids|
      ensures t in st'.outcomes ==>
        st'.outcomes[t] == Answered(Deny, Drain) || (t in st.outcomes && st'.outcomes[t] == st.outcomes[t])
    {
      DrainedOutcome(st.outcomes, waiting, t);
      WaitingMembers(st, max, t);
    }
  }

  lemma StepKeepsInv(st: State, max: nat, step: Step)
    requires Inv(st, max)
    ensures Inv(After(st, max, step), max)
  {
    match step
    case Push(id) => PushKeepsInv(st, max, id);
    case Respond(id, decision) => ResolveKeepsInv(st, max, id, Answered(decision, Responder));
    case TimerFires(t) =>
      if t < |st.ids| {
        ResolveKeepsInv(st, max, st.ids[t], Answered(Deny, Timer));
      }
    case DrainDeny => DrainKeepsInv(st, max);
  }

  lemma {:induction false} RunKeepsInv(st: State, max: nat, steps: seq<Step>)
    requires Inv(st, max)
    ensures Inv(Run(st, max, steps), max)
    decreases steps
  {
    if steps != [] {
      StepKeepsInv(st, max, steps[0]);
      RunKeepsInv(After(st, max, steps[0]), max, steps[1..]);
    }
  }

  /** In every interleaving, each accepted push is waiting or settled but not both, and no more than `max` wait. */
  lemma PendingOrSettled(max: nat, steps: seq<Step>)
    ensures
      var st := Run(EMPTY, max, steps);
      && |st.pending| <= max
      && (forall t :: 0 <= t < |st.ids| ==> (t in st.outcomes <==> !WaitsAs(st, t)))
      && (forall t :: t in st.outcomes && st.outcomes[t].Answered? && st.outcomes[t].decision.Approve? ==>
        st.outcomes[t].via.Responder?)
  {
    RunKeepsInv(EMPTY, max, steps);
  }

  // ---------- Settled at most once ----------

  lemma StepKeepsOutcomes(st: State, max: nat, step: Step)
    requires Inv(st, max)
    ensures var st' := After(st, max, step);
            && st.ids <= st'.ids
            && forall t :: t in st.outcomes ==> t in st'.outcomes && st'.outcomes[t] == st.outcomes[t]
  {
    var st' := After(st, max, step);
    forall t | t in st.outcomes ensures t in st'.outcomes && st'.outcomes[t] == st.outcomes[t] {
      assert !WaitsAs(st, t);
      assert t !in WaitingUnder(st.pending, st.pending.Keys);
    }
  }

  /** An outcome, once sent, is never changed by anything that happens later. */
  lemma {:induction false} SettledOnce(st: State, max: nat, steps: seq<Step>, t: Ticket)
    requires Inv(st, max) && t in st.outcomes
    ensures var st' := Run(st, max, steps); t in st'.outcomes && st'.outcomes[t] == st.outcomes[t]
    decreases steps
  {
    if steps != [] {
      StepKeepsInv(st, max, steps[0]);
      StepKeepsOutcomes(st, max, steps[0]);
      SettledOnce(After(st, max, steps[0]), max, steps[1..], t);
    }
  }

  /** Whatever else has happened, a push is settled once its timer has fired. */
  lemma TimerSettles(st: State, max: nat, t: Ticket)
    requires Inv(st, max) && t < |st.ids|
    ensures t in After(st, max, TimerFires(t)).outcomes
  {
    if t in st.outcomes {
      StepKeepsOutcomes(st, max, TimerFires(t));
    }
  }

  // ---------- Ids that are never reused ----------

  /** No push names an id that was pushed before. */
  predicate FreshIds(ids: seq<string>, steps: seq<Step>)
    decreases steps
  {
    steps == [] || (
      && (steps[0].Push? ==> steps[0].id !in ids)
      && FreshIds(if steps[0].Push? then ids + [steps[0].id] else ids, steps[1..]))
  }

  /** The request was dropped without an answer. */
  predicate ClosedIn(st: State, t: Ticket) { t in st.outcomes && st.outcomes[t].Closed? }

  predicate NoneClosed(st: State) { forall t :: t in st.outcomes ==> st.outcomes[t].Answered? }

  /** Nothing has been lost so far, and every accepted id is among those pushed. */
  predicate Unreused(st: State, pushed: seq<string>) {
    NoneClosed(st) && Distinct(st.ids) && forall i :: 0 <= i < |st.ids| ==> st.ids[i] in pushed
  }

  lemma FreshPush(st: State, max: nat, id: string, pushed: seq<string>)
    requires Inv(st, max) && Unreused(st, pushed) && id !in pushed
    ensures Unreused(AfterPush(st, max, id), pushed + [id])
  {
    assert id !in st.pending;
  }

  lemma FreshStep(st: State, max: nat, step: Step, pushed: seq<string>)
    requires Inv(st, max) && Unreused(st, pushed) && !step.Push?
    ensures Unreused(After(st, max, step), pushed)
  {
    hide Inv, Distinct, WaitingUnder, Denied;
    var st' := After(st, max, step);
    assert st'.ids == st.ids;
    forall t | t in st'.outcomes ensures st'.outcomes[t].Answered? {
      if step.DrainDeny? {
        DrainedOutcome(st.outcomes, WaitingUnder(st.pending, st.pending.Keys), t);
      }
    }
  }

  lemma {:induction false} FreshRun(st: State, max: nat, steps: seq<Step>, pushed: seq<string>)
    requires Inv(st, max) && Unreused(st, pushed) && FreshIds(pushed, steps)
    ensures NoneClosed(Run(st, max, steps)) && Distinct(Run(st, max, steps).ids)
    decreases steps
  {
    if steps != [] {
      StepKeepsInv(st, max, steps[0]);
      if steps[0].Push? {
        FreshPush(st, max, steps[0].id, pushed);
        FreshRun(AfterPush(st, max, steps[0].id), max, steps[1..], pushed + [steps[0].id]);
      } else {
        FreshStep(st, max, steps[0], pushed);
        FreshRun(After(st, max, steps[0]), max, steps[1..], pushed);
      }
    }
  }

  /** With ids that are never reused every settled push got an answer, and a timer only ever denies its own push. */
  lemma FreshIdsAnswered(max: nat, steps: seq<Step>)
    requires FreshIds([], steps)
    ensures
      var st := Run(EMPTY, max, steps);
      && NoneClosed(st)
      && forall t :: 0 <= t < |st.ids| && st.ids[t] in st.pending ==> st.pending[st.ids[t]] == t
  {
    RunKeepsInv(EMPTY, max, steps);
    FreshRun(EMPTY, max, steps, []);
  }

  // ---------- Exactly when a request goes unanswered ----------

  /** A push that is let in under an id that is still waiting. */
  predicate Clash(st: State, max: nat, step: Step) { step.Push? && |st.pending| < max && step.id in st.pending }

  predicate NoClash(st: State, max: nat, steps: seq<Step>)
    decreases steps
  {
    steps == [] || (!Clash(st, max, steps[0]) && NoClash(After(st, max, steps[0]), max, steps[1..]))
  }

  /** A clash closes the channel of the push that was waiting, without an answer; nothing else closes one. */
  lemma PushCloses(st: State, max: nat, id: string, t: Ticket)
    requires Inv(st, max)
    ensures ClosedIn(AfterPush(st, max, id), t) <==>
      ClosedIn(st, t) || (|st.pending| < max && id in st.pending && t == st.pending[id])
  {
  }

  lemma ResolveCloses(st: State, max: nat, id: string, outcome: Outcome, t: Ticket)
    requires Inv(st, max) && outcome.Answered?
    ensures ClosedIn(Resolve(st, id, outcome), t) <==> ClosedIn(st, t)
  {
  }

  lemma DrainCloses(st: State, max: nat, t: Ticket)
    requires Inv(st, max)
    ensures ClosedIn(AfterDrain(st), t) <==> ClosedIn(st, t)
  {
    hide WaitingUnder, Denied;
    DrainedOutcome(st.outcomes, WaitingUnder(st.pending, st.pending.Keys), t);
    WaitingMembers(st, max, t);
  }

  lemma ClashCloses(st: State, max: nat, step: Step)
    requires Inv(st, max)
    ensures forall t :: ClosedIn(After(st, max, step), t) <==>
      ClosedIn(st, t) || (Clash(st, max, step) && t == st.pending[step.id])
  {
    hide AfterPush, AfterDrain, Resolve, ClosedIn, Inv;
    forall t
      ensures ClosedIn(After(st, max, step), t) <==>
        ClosedIn(st, t) || (Clash(st, max, step) && t == st.pending[step.id])
    {
      match step
      case Push(id) => PushCloses(st, max, id, t);
      case Respond(id, decision) => ResolveCloses(st, max, id, Answered(decision, Responder), t);
      case TimerFires(n) =>
        if n < |st.ids| {
          ResolveCloses(st, max, st.ids[n], Answered(Deny, Timer), t);
        }
      case DrainDeny => DrainCloses(st, max, t);
    }
  }

  lemma {:induction false} AnsweredFrom(st: State, max: nat, steps: seq<Step>)
    requires Inv(st, max)
    ensures NoneClosed(Run(st, max, steps)) <==> NoneClosed(st) && NoClash(st, max, steps)
    decreases steps
  {
    hide Inv, Clash, After;
    if steps != [] {
      var next := After(st, max, steps[0]);
      StepKeepsInv(st, max, steps[0]);
      AnsweredFrom(next, max, steps[1..]);
      OneStep(st, max, steps[0]);
    }
  }

  lemma NoneIsClosed(st: State)
    ensures NoneClosed(st) <==> forall t :: !ClosedIn(st, t)
  {
    assert forall t :: t in st.outcomes ==> (st.outcomes[t].Answered? <==> !ClosedIn(st, t));
  }

  lemma OneStep(st: State, max: nat, step: Step)
    requires Inv(st, max)
    ensures NoneClosed(After(st, max, step)) <==> NoneClosed(st) && !Clash(st, max, step)
  {
    ClashCloses(st, max, step);
    NoneIsClosed(st);
    NoneIsClosed(After(st, max, step));
    hide Inv, After, NoneClosed, ClosedIn;
    if Clash(st, max, step) {
      assert ClosedIn(After(st, max, step), st.pending[step.id]);
    }
  }

  /** Over any run from an empty queue, every settled request got an answer exactly when no push clashed. */
  lemma AnsweredExactly(max: nat, steps: seq<Step>)
    ensures NoneClosed(Run(EMPTY, max, steps)) <==> NoClash(EMPTY, max, steps)
  {
    AnsweredFrom(EMPTY, max, steps);
  }
}
