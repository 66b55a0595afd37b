/** What the approval queue does to each request, told from the list of steps alone. */
module ApprovalHistory {
  import opened Common
  import opened Approvals

  // ---------- The reference: a reading of the step list ----------

  /** The places of the pushes that were let in: those that found fewer than `max` requests waiting. */
  function Pushes(max: nat, steps: seq<Step>): (r: seq<nat>)
    ensures forall i :: 0 <= i < |r| ==> r[i] < |steps| && steps[r[i]].Push?
    ensures forall i, j :: 0 <= i < j < |r| ==> r[i] < r[j]
    decreases |steps|, 0
  {
    if steps == [] then []
    else
      var init := steps[..|steps| - 1];
      Pushes(max, init) + if steps[|init|].Push? && |Waiting(max, init)| < max then [|init|] else []
  }

  /** The id under which push `t` was made. */
  function IdOf(max: nat, steps: seq<Step>, t: Ticket): string
    requires t < |Pushes(max, steps)|
    decreases |steps|, 1
  {
    steps[Pushes(max, steps)[t]].id
  }

  /** Step `j` acts on whatever waits under `id`. */
  predicate Touches(max: nat, steps: seq<Step>, j: nat, id: string)
    requires j < |steps|
    decreases j, 3
  {
    match steps[j]
    case Push(other) => other == id && |Waiting(max, steps[..j])| < max
    case Respond(other, _) => other == id
    case TimerFires(u) => u < |Pushes(max, steps[..j])| && IdOf(max, steps[..j], u) == id
    case DrainDeny => true
  }

  /** Push `t` was let in and nothing has acted on its id since. */
  predicate Waits(max: nat, steps: seq<Step>, t: Ticket)
    decreases |steps|, 1
  {
    && t < |Pushes(max, steps)|
    && forall j :: Pushes(max, steps)[t] < j < |steps| ==> !Touches(max, steps, j, steps[Pushes(max, steps)[t]].id)
  }

  function Waiting(max: nat, steps: seq<Step>): set<Ticket>
    decreases |steps|, 2
  {
    set t | 0 <= t < |Pushes(max, steps)| && Waits(max, steps, t)
  }

  /** Step `j` acted on push `t` while it waited. */
  predicate Settles(max: nat, steps: seq<Step>, j: nat, t: Ticket) {
    j < |steps| && Waits(max, steps[..j], t) && Touches(max, steps, j, IdOf(max, steps[..j], t))
  }

  /** What a step tells the push it acts on. */
  function Verdict(step: Step): Outcome {
    match step
    case Push(_) => Closed
    case Respond(_, decision) => Answered(decision, Responder)
    case TimerFires(_) => Answered(Deny, Timer)
    case DrainDeny => Answered(Deny, Drain)
  }

  // ---------- One more step ----------

  lemma PrefixSame(init: seq<Step>, s: Step, j: nat)
    requires j <= |init|
    ensures (init + [s])[..j] == init[..j]
    ensures j < |init| ==> (init + [s])[j] == init[j]
  {
  }

  lemma PushesSnoc(max: nat, init: seq<Step>, s: Step)
    ensures Pushes(max, init + [s]) ==
      Pushes(max, init) + if s.Push? && |Waiting(max, init)| < max then [|init|] else []
  {
    assert (init + [s])[..|init|] == init;
    hide Waiting;
  }

  lemma TouchesSnoc(max: nat, init: seq<Step>, s: Step, j: nat, id: string)
    requires j < |init|
    ensures Touches(max, init + [s], j, id) <==> Touches(max, init, j, id)
  {
    PrefixSame(init, s, j);
    hide Pushes, Waiting;
  }

  lemma IdSnoc(max: nat, init: seq<Step>, s: Step, t: Ticket)
    requires t < |Pushes(max, init)|
    ensures t < |Pushes(max, init + [s])| && Pushes(max, init + [s])[t] == Pushes(max, init)[t]
    ensures IdOf(max, init + [s], t) == IdOf(max, init, t)
  {
    PushesSnoc(max, init, s);
    hide Pushes;
  }

  /** An earlier push waits on exactly if the step does not act on its id. */
  lemma WaitsSnoc(max: nat, init: seq<Step>, s: Step, t: Ticket)
    requires t < |Pushes(max, init)|
    ensures Waits(max, init + [s], t) <==>
      Waits(max, init, t) && !Touches(max, init + [s], |init|, IdOf(max, init, t))
  {
    IdSnoc(max, init, s, t);
    hide Pushes, Touches;
    var steps, id, from := init + [s], IdOf(max, init, t), Pushes(max, init)[t];
    forall j | from < j < |init| ensures Touches(max, steps, j, id) <==> Touches(max, init, j, id) {
      TouchesSnoc(max, init, s, j, id);
    }
  }

  lemma NewWaits(max: nat, init: seq<Step>, s: Step)
    requires s.Push? && |Waiting(max, init)| < max
    ensures Waits(max, init + [s], |Pushes(max, init)|) && IdOf(max, init + [s], |Pushes(max, init)|) == s.id
  {
    PushesSnoc(max, init, s);
    hide Pushes, Touches, Waiting;
  }

  // ---------- What a step does to one push of the queue ----------

  /** The step acts on whatever waits under `id`, told from the state before it. */
  predicate Acts(st: State, max: nat, step: Step, id: string) {
    match step
    case Push(other) => other == id && |st.pending| < max
    case Respond(other, _) => other == id
    case TimerFires(u) => u < |st.ids| && st.ids[u] == id
    case DrainDeny => true
  }

  /** Push `t` before and after a step: acted on, left waiting, or settled already. */
  predicate Moves(st: State, max: nat, step: Step, st': State, t: Ticket)
    requires t < |st.ids|
  {
    && st.ids <= st'.ids
    && (t in st.outcomes <==> !WaitsAs(st, t))
    && if !WaitsAs(st, t) then !WaitsAs(st', t) && t in st'.outcomes && st'.outcomes[t] == st.outcomes[t]
       else if Acts(st, max, step, st.ids[t]) then
         !WaitsAs(st', t) && t in st'.outcomes && st'.outcomes[t] == Verdict(step)
       else WaitsAs(st', t) && t !in st'.outcomes
  }

  lemma PushMoves(st: State, max: nat, id: string, t: Ticket)
    requires Inv(st, max) && t < |st.ids|
    ensures Moves(st, max, Push(id), AfterPush(st, max, id), t)
  {
  }

  lemma ResolveMoves(st: State, max: nat, step: Step, id: string, t: Ticket)
    requires Inv(st, max) && t < |st.ids| && forall other :: Acts(st, max, step, other) <==> other == id
    ensures Moves(st, max, step, Resolve(st, id, Verdict(step)), t)
  {
  }

  lemma DrainMoves(st: State, max: nat, t: Ticket)
    requires Inv(st, max) && t < |st.ids|
    ensures Moves(st, max, DrainDeny, AfterDrain(st), t)
  {
    hide Denied, WaitingUnder;
    DrainedOutcome(st.outcomes, WaitingUnder(st.pending, st.pending.Keys), t);
    WaitingMembers(st, max, t);
  }

  lemma TimerOfNone(st: State, max: nat, u: Ticket, t: Ticket)
    requires Inv(st, max) && t < |st.ids| <= u
    ensures Moves(st, max, TimerFires(u), st, t)
  {
  }

  lemma StepMoves(st: State, max: nat, step: Step, t: Ticket)
    requires Inv(st, max) && t < |st.ids|
    ensures Moves(st, max, step, After(st, max, step), t)
  {
    hide Inv, Moves, AfterPush, Resolve, AfterDrain;
    match step
    case Push(id) => PushMoves(st, max, id, t);
    case Respond(id, decision) => ResolveMoves(st, max, step, id, t);
    case TimerFires(u) =>
      if u < |st.ids| {
        ResolveMoves(st, max, step, st.ids[u], t);
      } else {
        TimerOfNone(st, max, u, t);
      }
    case DrainDeny => DrainMoves(st, max, t);
  }

  /** Only a push that finds room adds a ticket, and the new request waits. */
  lemma NewTicket(st: State, max: nat, step: Step)
    requires Inv(st, max)
    ensures var st' := After(st, max, step);
      if step.Push? && |st.pending| < max
      then st'.ids == st.ids + [step.id] && WaitsAs(st', |st.ids|) && |st.ids| !in st'.outcomes
      else st'.ids == st.ids
  {
    hide Denied, WaitingUnder;
  }

  // ---------- The queue follows the reference ----------

  /** The state says of every push what the steps say. */
  ghost predicate Follows(max: nat, steps: seq<Step>, st: State) {
    && |st.ids| == |Pushes(max, steps)|
    && |st.pending| == |Waiting(max, steps)|
    && forall t: Ticket :: t < |st.ids| ==> FollowsAt(max, steps, st, t)
  }

  ghost predicate FollowsAt(max: nat, steps: seq<Step>, st: State, t: Ticket)
    requires t < |st.ids| == |Pushes(max, steps)|
  {
    && st.ids[t] == IdOf(max, steps, t)
    && (WaitsAs(st, t) <==> Waits(max, steps, t))
    && (t in st.outcomes <==> exists j: nat :: Settles(max, steps, j, t))
    && (forall j: nat :: Settles(max, steps, j, t) ==> t in st.outcomes && st.outcomes[t] == Verdict(steps[j]))
  }

  lemma ActsIsTouches(max: nat, init: seq<Step>, s: Step, st: State, id: string)
    requires Follows(max, init, st)
    ensures Acts(st, max, s, id) <==> Touches(max, init + [s], |init|, id)
  {
    PrefixSame(init, s, |init|);
    assert init[..|init|] == init && (init + [s])[|init|] == s;
    hide Pushes, Waiting, Waits, Settles;
    if s.TimerFires? && s.ticket < |st.ids| {
      assert FollowsAt(max, init, st, s.ticket);
    }
  }

  lemma SettlesSnoc(max: nat, init: seq<Step>, s: Step, j: nat, t: Ticket)
    ensures Settles(max, init + [s], j, t) <==>
      if j < |init| then Settles(max, init, j, t)
      else j == |init| && Waits(max, init, t) && Touches(max, init + [s], |init|, IdOf(max, init, t))
  {
    if j < |init| {
      PrefixSame(init, s, j);
      if Waits(max, init[..j], t) {
        TouchesSnoc(max, init, s, j, IdOf(max, init[..j], t));
      }
    } else if j == |init| {
      PrefixSame(init, s, j);
      assert init[..|init|] == init;
    }
    hide Pushes, Touches, Waits;
  }

  lemma OldTicketFollows(max: nat, init: seq<Step>, s: Step, st: State, t: Ticket)
    requires Inv(st, max) && Follows(max, init, st) && t < |st.ids|
    ensures var st' := After(st, max, s);
      t < |st'.ids| && t < |Pushes(max, init + [s])|
      && (|st'.ids| == |Pushes(max, init + [s])| ==> FollowsAt(max, init + [s], st', t))
  {
    hide Inv, After, Pushes, Touches, Waits, WaitsAs, Acts;
    var st', steps, id := After(st, max, s), init + [s], st.ids[t];
    assert FollowsAt(max, init, st, t);
    StepMoves(st, max, s, t);
    IdSnoc(max, init, s, t);
    WaitsSnoc(max, init, s, t);
    ActsIsTouches(max, init, s, st, id);
    forall j: nat ensures Settles(max, steps, j, t) <==>
      if j < |init| then Settles(max, init, j, t) else j == |init| && Waits(max, init, t) && Acts(st, max, s, id)
    {
      SettlesSnoc(max, init, s, j, t);
    }
    hide Settles;
    if Waits(max, init, t) {
      assert forall j: nat :: !Settles(max, init, j, t);
      assert Acts(st, max, s, id) ==> Settles(max, steps, |init|, t);
    } else {
      var k: nat :| Settles(max, init, k, t);
      SettlesEarly(max, init, k, t);
      assert Settles(max, steps, k, t);
    }
  }

  lemma SettlesEarly(max: nat, steps: seq<Step>, j: nat, t: Ticket)
    requires Settles(max, steps, j, t)
    ensures j < |steps|
  {
  }

  lemma {:induction false} PushesGrow(max: nat, steps: seq<Step>, j: nat)
    requires j <= |steps|
    ensures |Pushes(max, steps[..j])| <= |Pushes(max, steps)|
    decreases |steps|
  {
    if j == |steps| {
      assert steps[..j] == steps;
    } else {
      var init := steps[..|steps| - 1];
      assert init + [steps[|steps| - 1]] == steps && init[..j] == steps[..j];
      PushesSnoc(max, init, steps[|steps| - 1]);
      PushesGrow(max, init, j);
    }
  }

  /** A push that has not been made is not settled. */
  lemma NotYet(max: nat, steps: seq<Step>, j: nat, t: Ticket)
    requires t >= |Pushes(max, steps)|
    ensures !Settles(max, steps, j, t)
  {
    if j < |steps| {
      PushesGrow(max, steps, j);
    }
    hide Pushes, Touches;
  }

  lemma NewTicketFollows(max: nat, init: seq<Step>, s: Step, st: State)
    requires Inv(st, max) && Follows(max, init, st) && s.Push? && |st.pending| < max
    ensures var st' := After(st, max, s);
      |st'.ids| == |Pushes(max, init + [s])| && FollowsAt(max, init + [s], st', |st.ids|)
  {
    var st', steps, t := After(st, max, s), init + [s], |st.ids|;
    NewTicket(st, max, s);
    hide Inv, After, Touches, Waits, WaitsAs, FollowsAt;
    PushesSnoc(max, init, s);
    NewWaits(max, init, s);
    hide Pushes, Waiting;
    forall j: nat ensures !Settles(max, steps, j, t) {
      SettlesSnoc(max, init, s, j, t);
      NotYet(max, init, j, t);
      NotWaiting(max, init, t);
    }
    hide Settles;
    NewFollows(max, steps, st', t);
  }

  lemma NotWaiting(max: nat, steps: seq<Step>, t: Ticket)
    requires t >= |Pushes(max, steps)|
    ensures !Waits(max, steps, t)
  {
    hide Pushes;
  }

  lemma NewFollows(max: nat, steps: seq<Step>, st: State, t: Ticket)
    requires t < |st.ids| == |Pushes(max, steps)| && st.ids[t] == IdOf(max, steps, t)
    requires WaitsAs(st, t) && Waits(max, steps, t) && t !in st.outcomes
    requires forall j: nat :: !Settles(max, steps, j, t)
    ensures FollowsAt(max, steps, st, t)
  {
    hide Pushes, Settles, Waits, WaitsAs, IdOf;
  }

  // ---------- As many wait in the queue as on the steps ----------

  lemma {:induction false} OneValueEach(m: map<string, Ticket>, ids: seq<string>)
    requires forall id :: id in m ==> m[id] < |ids| && ids[m[id]] == id
    ensures |m| == |m.Values|
    decreases |m|
  {
    if m != map[] {
      var id :| id in m;
      var rest := m - {id};
      assert m.Keys == rest.Keys + {id};
      OneValueEach(rest, ids);
      assert forall k :: k in rest ==> k in m && rest[k] == m[k];
      assert m.Values == rest.Values + {m[id]} by {
        forall v | v in m.Values ensures v in rest.Values + {m[id]} {
          var k :| k in m && m[k] == v;
          assert k == id || k in rest;
        }
      }
      assert m[id] !in rest.Values;
    }
  }

  lemma WaitingCount(max: nat, steps: seq<Step>, st: State)
    requires Inv(st, max) && |st.ids| == |Pushes(max, steps)|
    requires forall t: Ticket :: t < |st.ids| ==> (WaitsAs(st, t) <==> Waits(max, steps, t))
    ensures |st.pending| == |Waiting(max, steps)|
  {
    hide Pushes, Waits;
    OneValueEach(st.pending, st.ids);
    assert st.pending.Values == Waiting(max, steps) by {
      forall t | t in st.pending.Values ensures t in Waiting(max, steps) {
        var id :| id in st.pending && st.pending[id] == t;
        assert WaitsAs(st, t);
      }
      forall t | t in Waiting(max, steps) ensures t in st.pending.Values {
        assert WaitsAs(st, t);
        assert st.ids[t] in st.pending;
      }
    }
  }

  lemma StepFollows(max: nat, init: seq<Step>, s: Step, st: State)
    requires Inv(st, max) && Follows(max, init, st)
    ensures Follows(max, init + [s], After(st, max, s))
  {
    hide Inv, After, Pushes, Waiting, Waits, WaitsAs, Settles, FollowsAt;
    var st', steps := After(st, max, s), init + [s];
    NewTicket(st, max, s);
    StepKeepsInv(st, max, s);
    PushesSnoc(max, init, s);
    forall t: Ticket | t < |st'.ids| ensures FollowsAt(max, steps, st', t) {
      if t < |st.ids| {
        OldTicketFollows(max, init, s, st, t);
      } else {
        NewTicketFollows(max, init, s, st);
      }
    }
    forall t: Ticket | t < |st'.ids| ensures WaitsAs(st', t) <==> Waits(max, steps, t) {
      FollowsWaits(max, steps, st', t);
    }
    WaitingCount(max, steps, st');
  }

  lemma FollowsWaits(max: nat, steps: seq<Step>, st: State, t: Ticket)
    requires t < |st.ids| == |Pushes(max, steps)| && FollowsAt(max, steps, st, t)
    ensures WaitsAs(st, t) <==> Waits(max, steps, t)
  {
    hide Pushes, Waits, WaitsAs, Settles;
  }

  lemma {:induction false} RunSnoc(st: State, max: nat, init: seq<Step>, s: Step)
    ensures Run(st, max, init + [s]) == After(Run(st, max, init), max, s)
    decreases init
  {
    hide After;
    if init == [] {
      assert init + [s] == [s] && [s][1..] == [];
    } else {
      assert (init + [s])[1..] == init[1..] + [s];
      RunSnoc(After(st, max, init[0]), max, init[1..], s);
    }
  }

  /** Over every run the queue holds of each request what a reading of the steps gives. */
  lemma {:induction false} RunFollows(max: nat, steps: seq<Step>)
    ensures Follows(max, steps, Run(EMPTY, max, steps)) && Inv(Run(EMPTY, max, steps), max)
    decreases |steps|
  {
    RunKeepsInv(EMPTY, max, steps);
    if steps != [] {
      var init, s := steps[..|steps| - 1], steps[|steps| - 1];
      assert steps == init + [s];
      RunFollows(max, init);
      RunSnoc(EMPTY, max, init, s);
      StepFollows(max, init, s, Run(EMPTY, max, init));
    } else {
      assert Waiting(max, steps) == {};
    }
  }

  // ---------- Who settled a request, and how ----------

  lemma OutcomeAt(max: nat, steps: seq<Step>, t: Ticket)
    ensures var st := Run(EMPTY, max, steps);
      && (t in st.outcomes <==> exists j: nat :: Settles(max, steps, j, t))
      && (forall j: nat :: Settles(max, steps, j, t) ==> t in st.outcomes && st.outcomes[t] == Verdict(steps[j]))
  {
    var st := Run(EMPTY, max, steps);
    RunFollows(max, steps);
    hide Run, Pushes, Waiting;
    if t < |st.ids| {
      assert FollowsAt(max, steps, st, t);
    } else {
      assert t !in st.outcomes;
      forall j: nat ensures !Settles(max, steps, j, t) {
        NotYet(max, steps, j, t);
      }
    }
  }

  /** A request is answered by a responder with a decision exactly if that response came while it waited. */
  lemma RespondedExactly(max: nat, steps: seq<Step>, t: Ticket, d: Decision)
    ensures var st := Run(EMPTY, max, steps);
      t in st.outcomes && st.outcomes[t] == Answered(d, Responder) <==>
      exists j: nat :: Settles(max, steps, j, t) && steps[j].Respond? && steps[j].decision == d
  {
    OutcomeAt(max, steps, t);
    hide Run, Waits, Touches, IdOf;
  }

  /** A timer or a drain settles a request exactly if it came while the request waited, and always denies it. */
  lemma DeniedExactly(max: nat, steps: seq<Step>, t: Ticket, d: Decision)
    ensures var st := Run(EMPTY, max, steps);
      t in st.outcomes && st.outcomes[t] == Answered(d, Timer) <==>
      d == Deny && exists j: nat :: Settles(max, steps, j, t) && steps[j].TimerFires?
    ensures var st := Run(EMPTY, max, steps);
      t in st.outcomes && st.outcomes[t] == Answered(d, Drain) <==>
      d == Deny && exists j: nat :: Settles(max, steps, j, t) && steps[j].DrainDeny?
  {
    OutcomeAt(max, steps, t);
    hide Run, Waits, Touches, IdOf;
  }

  /** A request is dropped without an answer exactly if its id was pushed again, and let in, while it waited. */
  lemma DroppedExactly(max: nat, steps: seq<Step>, t: Ticket)
    ensures ClosedIn(Run(EMPTY, max, steps), t) <==>
      exists j: nat :: Settles(max, steps, j, t) && steps[j].Push?
  {
    OutcomeAt(max, steps, t);
    hide Run, Waits, Touches, IdOf;
    if ClosedIn(Run(EMPTY, max, steps), t) {
      var j: nat :| Settles(max, steps, j, t);
      assert Verdict(steps[j]) == Closed;
    }
  }

  /** The queue takes a push exactly if fewer than `max` requests wait, and what waits is what nothing has acted on. */
  lemma WaitingExactly(max: nat, steps: seq<Step>)
    ensures var st := Run(EMPTY, max, steps);
      && |st.ids| == |Pushes(max, steps)| && |st.pending| == |Waiting(max, steps)|
      && forall t: Ticket :: t < |st.ids| ==>
           st.ids[t] == steps[Pushes(max, steps)[t]].id && (WaitsAs(st, t) <==> Waits(max, steps, t))
  {
    var st := Run(EMPTY, max, steps);
    RunFollows(max, steps);
    hide Run, Pushes, Waiting, Waits, WaitsAs, Settles;
    forall t: Ticket | t < |st.ids|
      ensures st.ids[t] == steps[Pushes(max, steps)[t]].id && (WaitsAs(st, t) <==> Waits(max, steps, t))
    {
      assert FollowsAt(max, steps, st, t);
    }
  }
}
