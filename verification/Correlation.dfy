/**
 Request correlation over one agent connection: any number of dispatchers race the reader, the
 writer, timeouts, abandoned callers and shutdown over one pending map and one `connected` flag.

 Each action is one section that no other task can enter: a lock's critical section, or one read
 or write of an atomic. Everything between two sections may be interleaved with anything.
 */
module Correlation {
  import opened Collections

  /** What a response channel carries. */
  datatype Outcome = Reply(value: string) | AgentError(code: int) | Closed

  /** How a request ended for its caller. */
  datatype Ending = Delivered(outcome: Outcome) | Refused | Unwritten | Expired

  /** Where a dispatcher is. `Inserted` has its second look at `connected` still to come. */
  datatype Phase =
    | Allocated
    | Inserted
    | Rejecting
    | Queueing
    | WriterGone
    | Waiting
    | TimedOut
    | Abandoned(passed: bool)
    | Finished(ending: Ending)

  datatype RequestId = Number(n: int) | Text(s: string)

  datatype Response = Response(id: RequestId, outcome: Outcome)

  /** `entered` counts dispatchers past their first look at `connected` with no id yet. `sent` holds
      each response channel's value, `received` what the agent answered, `drained` whether the
      pending map was failed as a whole. */
  datatype State = State(
    connected: bool,
    writerOpen: bool,
    nextId: int,
    entered: nat,
    phases: map<int, Phase>,
    pending: set<int>,
    sent: map<int, Outcome>,
    received: seq<Response>,
    drained: bool)

  datatype Action =
    | Enter
    | Allocate
    | Insert(id: int)
    | Recheck(id: int)
    | Reject(id: int)
    | Enqueue(id: int)
    | RemoveUnwritten(id: int)
    | Collect(id: int)
    | Timeout(id: int)
    | RemoveTimedOut(id: int)
    | Abandon(id: int)
    | Receive(response: Response)
    | Disconnect
    | CloseWriter
    | FailPending

  function Fresh(): State {
    State(true, true, 1, 0, map[], {}, map[], [], false)
  }

  predicate At(s: State, id: int, phase: Phase) {
    id in s.phases && s.phases[id] == phase
  }

  function Move(s: State, id: int, phase: Phase): State {
    s.(phases := s.phases[id := phase])
  }

  /** The receiving half is gone, so the channel reports itself closed. */
  predicate HungUp(s: State, id: int) {
    id in s.phases && (s.phases[id].TimedOut? || s.phases[id].Abandoned? || s.phases[id].Finished?)
  }

  /** A caller can be dropped wherever a dispatcher awaits: everywhere but between insert and second look. */
  predicate Droppable(phase: Phase) {
    !phase.Inserted? && !phase.Abandoned? && !phase.Finished?
  }

  predicate PassedSecondLook(phase: Phase) {
    phase.Queueing? || phase.WriterGone? || phase.Waiting? || phase.TimedOut? || phase.Finished?
      || (phase.Abandoned? && phase.passed)
  }

  /** The reader's response section: sweep closed channels, then resolve the one with this number. */
  function Resolve(s: State, response: Response): State {
    if response.id.Text? then s.(received := s.received + [response])
    else
      var n := response.id.n;
      var live := set id | id in s.pending && !HungUp(s, id);
      s.(received := s.received + [response],
         pending := live - {n},
         sent := if n in live then s.sent[n := response.outcome] else s.sent)
  }

  function FailAll(sent: map<int, Outcome>, pending: set<int>): map<int, Outcome> {
    sent + (map id | id in pending :: Closed)
  }

  /** A step whose guard fails leaves the state as it is. */
  function Apply(s: State, a: Action): State {
    match a
    case Enter => if s.connected then s.(entered := s.entered + 1) else s
    case Allocate =>
      if s.entered > 0 then Move(s, s.nextId, Allocated).(nextId := s.nextId + 1, entered := s.entered - 1) else s
    case Insert(id) => if At(s, id, Allocated) then Move(s, id, Inserted).(pending := s.pending + {id}) else s
    case Recheck(id) => if At(s, id, Inserted) then Move(s, id, if s.connected then Queueing else Rejecting) else s
    case Reject(id) =>
      if At(s, id, Rejecting)
      then Move(s, id, Finished(Refused)).(pending := s.pending - {id}, sent := FailAll(s.sent, s.pending * {id}))
      else s
    case Enqueue(id) => if At(s, id, Queueing) then Move(s, id, if s.writerOpen then Waiting else WriterGone) else s
    case RemoveUnwritten(id) =>
      if At(s, id, WriterGone) then Move(s, id, Finished(Unwritten)).(pending := s.pending - {id}) else s
    case Collect(id) => if At(s, id, Waiting) && id in s.sent then Move(s, id, Finished(Delivered(s.sent[id]))) else s
    case Timeout(id) => if At(s, id, Waiting) then Move(s, id, TimedOut) else s
    case RemoveTimedOut(id) =>
      if At(s, id, TimedOut) then Move(s, id, Finished(Expired)).(pending := s.pending - {id}) else s
    case Abandon(id) =>
      if id in s.phases && Droppable(s.phases[id]) then Move(s, id, Abandoned(PassedSecondLook(s.phases[id]))) else s
    case Receive(response) => Resolve(s, response)
    case Disconnect => s.(connected := false)
    case CloseWriter => if s.connected then s else s.(writerOpen := false)
    case FailPending =>
      if s.connected then s else s.(pending := {}, sent := FailAll(s.sent, s.pending), drained := true)
  }

  function Run(s: State, actions: seq<Action>): State
    decreases |actions|
  {
    if actions == [] then s else Run(Apply(s, actions[0]), actions[1..])
  }

  // ------------------------------------------------------------ invariant

  /** Ids are handed out 1, 2, 3, … and each stays known. */
  predicate Numbered(s: State, id: int) {
    id in s.phases <==> 1 <= id < s.nextId
  }

  /** A request's sender is in the pending map or its one value is sent, never both; a receiver that
      is still held always has one of the two. */
  predicate Tracked(s: State, id: int) {
    && (id in s.pending ==> id in s.phases && !s.phases[id].Allocated? && !s.phases[id].Finished? && id !in s.sent)
    && (id in s.sent ==> id in s.phases && !s.phases[id].Allocated?)
    && (id in s.phases && !s.phases[id].Allocated? && !HungUp(s, id) ==> id in s.pending || id in s.sent)
  }

  /** Once the map was failed, what is in it has not passed its second look. */
  predicate Swept(s: State, id: int) {
    s.drained && id in s.pending ==> id in s.phases && !PassedSecondLook(s.phases[id])
  }

  /** A channel's value is the agent's answer to that id, unless the connection closed. */
  predicate Answered(s: State, id: int) {
    id in s.sent && !s.sent[id].Closed? ==> Response(Number(id), s.sent[id]) in s.received
  }

  /** What a caller was given is what its channel carries. */
  predicate Given(s: State, id: int) {
    id in s.phases && s.phases[id].Finished? && s.phases[id].ending.Delivered? ==>
      id in s.sent && s.sent[id] == s.phases[id].ending.outcome
  }

  predicate IdInv(s: State, id: int) {
    Numbered(s, id) && Tracked(s, id) && Swept(s, id) && Answered(s, id) && Given(s, id)
  }

  ghost predicate Inv(s: State) {
    && s.nextId >= 1
    && (s.drained ==> !s.connected)
    && (!s.writerOpen ==> !s.connected)
    && forall id :: IdInv(s, id)
  }

  lemma StepKeepsNumbered(s: State, a: Action, id: int)
    requires Inv(s)
    ensures Numbered(Apply(s, a), id)
  {
    assert IdInv(s, id);
  }

  /** The sections that resolve channels. */
  predicate Resolves(a: Action) {
    a.Receive? || a.Reject? || a.FailPending?
  }

  lemma ResolvingKeepsTracked(s: State, a: Action, id: int)
    requires Resolves(a) && Numbered(s, id) && Tracked(s, id)
    ensures Tracked(Apply(s, a), id)
  {
  }

  lemma MovingKeepsTracked(s: State, a: Action, id: int)
    requires !Resolves(a) && Numbered(s, id) && Tracked(s, id)
    ensures Tracked(Apply(s, a), id)
  {
  }

  lemma StepKeepsSwept(s: State, a: Action, id: int)
    requires Inv(s)
    ensures Swept(Apply(s, a), id)
  {
    assert IdInv(s, id);
  }

  lemma StepKeepsAnswered(s: State, a: Action, id: int)
    requires Answered(s, id)
    ensures Answered(Apply(s, a), id)
  {
    if a.Receive? {
      var known := s.received + [a.response];
      assert a.response == known[|s.received|];
      assert forall r :: r in s.received ==> r in known;
    }
  }

  lemma StepKeepsGiven(s: State, a: Action, id: int)
    requires Inv(s)
    ensures Given(Apply(s, a), id)
  {
    assert IdInv(s, id);
  }

  lemma StepKeepsInv(s: State, a: Action)
    requires Inv(s)
    ensures Inv(Apply(s, a))
  {
    forall id
      ensures IdInv(Apply(s, a), id)
    {
      assert IdInv(s, id);
      StepKeepsNumbered(s, a, id);
      if Resolves(a) {
        ResolvingKeepsTracked(s, a, id);
      } else {
        MovingKeepsTracked(s, a, id);
      }
      StepKeepsSwept(s, a, id);
      StepKeepsAnswered(s, a, id);
      StepKeepsGiven(s, a, id);
    }
    hide IdInv;
  }

  lemma {:induction false} RunKeepsInv(s: State, actions: seq<Action>)
    requires Inv(s)
    ensures Inv(Run(s, actions))
    decreases |actions|
  {
    hide Inv, Apply;
    if actions != [] {
      StepKeepsInv(s, actions[0]);
      RunKeepsInv(Apply(s, actions[0]), actions[1..]);
    }
  }

  lemma FreshInv()
    ensures Inv(Fresh())
  {
    assert forall id :: IdInv(Fresh(), id);
  }

  lemma Reachable(actions: seq<Action>, id: int)
    ensures Inv(Run(Fresh(), actions)) && IdInv(Run(Fresh(), actions), id)
  {
    FreshInv();
    RunKeepsInv(Fresh(), actions);
  }

  // ------------------------------------------------------------ no lost waiter

  /** In every run: once the map has been failed, the connection is closed, no request that passed its
      second look is still in the map, and every waiting caller has its outcome. */
  lemma NoLostWaiter(actions: seq<Action>, id: int)
    requires Run(Fresh(), actions).drained
    ensures var s := Run(Fresh(), actions);
            && !s.connected
            && (id in s.pending ==> At(s, id, Inserted) || At(s, id, Rejecting) || At(s, id, Abandoned(false)))
            && (At(s, id, Waiting) ==> id in s.sent && At(Apply(s, Collect(id)), id, Finished(Delivered(s.sent[id]))))
  {
    hide Run;
    Reachable(actions, id);
  }

  /** Refused for good: out of the map, whatever comes. */
  predicate RefusedOut(s: State, id: int) {
    id !in s.pending && At(s, id, Finished(Refused))
  }

  /** On its way out: its own next section is the second look or the removal. */
  predicate Leaving(s: State, id: int) {
    !s.connected && (At(s, id, Inserted) || At(s, id, Rejecting))
  }

  lemma LeavingStep(s: State, a: Action, id: int)
    requires Inv(s) && a != Abandon(id) && (Leaving(s, id) || RefusedOut(s, id))
    ensures var s' := Apply(s, a);
            && (Leaving(s', id) || RefusedOut(s', id))
            && (a == Recheck(id) ==> !At(s', id, Inserted))
            && (a == Reject(id) && !At(s, id, Inserted) ==> RefusedOut(s', id))
            && (!At(s, id, Inserted) ==> !At(s', id, Inserted))
            && (RefusedOut(s, id) ==> RefusedOut(s', id))
  {
    assert IdInv(s, id);
  }

  lemma {:induction false} LeavingRun(s: State, actions: seq<Action>, id: int)
    requires Inv(s) && Abandon(id) !in actions && (Leaving(s, id) || RefusedOut(s, id))
    ensures var s' := Run(s, actions);
            && Inv(s') && (Leaving(s', id) || RefusedOut(s', id))
            && (!At(s, id, Inserted) ==> !At(s', id, Inserted))
            && (RefusedOut(s, id) ==> RefusedOut(s', id))
    decreases |actions|
  {
    if actions != [] {
      assert actions[0] in actions && forall x :: x in actions[1..] ==> x in actions;
      StepKeepsInv(s, actions[0]);
      LeavingStep(s, actions[0], id);
      hide Inv, Apply, Leaving, RefusedOut;
      LeavingRun(Apply(s, actions[0]), actions[1..], id);
    }
  }

  /** What is left in the failed map removes itself: with anything before, between and after its own two
      sections, unless its caller is dropped, it ends out of the map and refused. */
  lemma LeftoversRemoveThemselves(actions: seq<Action>, id: int, before: seq<Action>, between: seq<Action>,
                                  after: seq<Action>)
    requires Run(Fresh(), actions).drained && id in Run(Fresh(), actions).pending
    requires !At(Run(Fresh(), actions), id, Abandoned(false))
    requires Abandon(id) !in before && Abandon(id) !in between && Abandon(id) !in after
    ensures var s1 := Run(Run(Fresh(), actions), before);
            var s2 := Run(Apply(s1, Recheck(id)), between);
            RefusedOut(Run(Apply(s2, Reject(id)), after), id)
  {
    var s := Run(Fresh(), actions);
    NoLostWaiter(actions, id);
    Reachable(actions, id);
    assert Leaving(s, id);
    hide Run, IdInv;
    LeavingRun(s, before, id);
    var s1 := Run(s, before);
    LeavingStep(s1, Recheck(id), id);
    StepKeepsInv(s1, Recheck(id));
    LeavingRun(Apply(s1, Recheck(id)), between, id);
    var s2 := Run(Apply(s1, Recheck(id)), between);
    LeavingStep(s2, Reject(id), id);
    StepKeepsInv(s2, Reject(id));
    LeavingRun(Apply(s2, Reject(id)), after, id);
  }

  /** A numbered response sweeps the map, and failing it empties it. */
  predicate Sweeps(a: Action) {
    a.FailPending? || (a.Receive? && a.response.id.Number?)
  }

  lemma DroppedStep(s: State, a: Action, id: int)
    requires Inv(s) && !s.connected && At(s, id, Abandoned(false))
    ensures var s' := Apply(s, a);
            && !s'.connected && At(s', id, Abandoned(false)) && (id in s'.pending <==> id in s.pending && !Sweeps(a))
  {
    assert IdInv(s, id);
  }

  /** The entry of a dispatcher dropped before its removal stays in the map exactly until the next sweep. */
  lemma {:induction false} DroppedEntryStaysExactly(s: State, actions: seq<Action>, id: int)
    requires Inv(s) && !s.connected && At(s, id, Abandoned(false))
    ensures id in Run(s, actions).pending <==> id in s.pending && forall a :: a in actions ==> !Sweeps(a)
    decreases |actions|
  {
    if actions != [] {
      StepKeepsInv(s, actions[0]);
      DroppedStep(s, actions[0], id);
      hide Apply, Inv;
      DroppedEntryStaysExactly(Apply(s, actions[0]), actions[1..], id);
      assert actions == [actions[0]] + actions[1..];
    }
  }

  /** Such an entry can come after the map was failed. */
  lemma DroppedEntryInAFailedMap()
    ensures var s := Run(Fresh(), [Enter, Allocate, Disconnect, FailPending, Insert(1), Recheck(1), Abandon(1)]);
            s.drained && s.pending == {1} && At(s, 1, Abandoned(false))
  {
    var first, second, third := [Enter, Allocate], [Disconnect, FailPending], [Insert(1), Recheck(1)];
    assert first + (second + (third + [Abandon(1)]))
           == [Enter, Allocate, Disconnect, FailPending, Insert(1), Recheck(1), Abandon(1)];
    var s2 := State(true, true, 2, 0, map[1 := Allocated], {}, map[], [], false);
    assert Apply(Apply(Fresh(), Enter), Allocate) == s2;
    var s4 := State(false, true, 2, 0, map[1 := Allocated], {}, map[], [], true);
    FailAllOfNothing();
    assert Apply(Apply(s2, Disconnect), FailPending) == s4;
    var s6 := State(false, true, 2, 0, map[1 := Rejecting], {1}, map[], [], true);
    assert Apply(Apply(s4, Insert(1)), Recheck(1)) == s6;
    var s7 := State(false, true, 2, 0, map[1 := Abandoned(false)], {1}, map[], [], true);
    assert Apply(s6, Abandon(1)) == s7;
    hide Apply;
    RunTwo(Fresh(), Enter, Allocate, second + (third + [Abandon(1)]));
    RunTwo(s2, Disconnect, FailPending, third + [Abandon(1)]);
    RunTwo(s4, Insert(1), Recheck(1), [Abandon(1)]);
    assert [Abandon(1)][1..] == [];
    assert Run(s6, [Abandon(1)]) == Run(s7, []);
  }

  lemma FailAllOfNothing()
    ensures FailAll(map[], {}) == map[]
  {
  }

  lemma RunTwo(s: State, a: Action, b: Action, rest: seq<Action>)
    ensures Run(s, [a, b] + rest) == Run(Apply(Apply(s, a), b), rest)
  {
    assert ([a, b] + rest)[1..] == [b] + rest && ([b] + rest)[1..] == rest;
    assert Run(s, [a, b] + rest) == Run(Apply(s, a), [b] + rest);
  }

  /** A caller that still waits never finds its channel dropped: its sender is in the map, or its value is there. */
  lemma WaiterKeepsItsChannel(actions: seq<Action>, id: int)
    requires At(Run(Fresh(), actions), id, Waiting)
    ensures var s := Run(Fresh(), actions); (id in s.pending) != (id in s.sent)
  {
    Reachable(actions, id);
  }

  // ------------------------------------------------------------ correlation

  /** Ids are handed out without gap or reuse, and a run never forgets one. */
  lemma {:induction false} IdsNeverReused(s: State, actions: seq<Action>)
    requires Inv(s)
    ensures s.nextId <= Run(s, actions).nextId
    ensures forall id :: id in Run(s, actions).phases <==> 1 <= id < Run(s, actions).nextId
    ensures s.nextId !in s.phases
    decreases |actions|
  {
    assert Numbered(s, s.nextId) by {
      assert IdInv(s, s.nextId);
    }
    if actions == [] {
      forall id
        ensures id in s.phases <==> 1 <= id < s.nextId
      {
        assert IdInv(s, id);
      }
    } else {
      StepKeepsInv(s, actions[0]);
      IdsNeverReused(Apply(s, actions[0]), actions[1..]);
    }
  }

  lemma StepFixesOutcome(s: State, a: Action, id: int)
    requires Inv(s) && id in s.sent
    ensures id in Apply(s, a).sent && Apply(s, a).sent[id] == s.sent[id]
  {
    assert IdInv(s, id);
  }

  /** Every response channel is resolved at most once: its first value is its value in every later state. */
  lemma {:induction false} ResolvedOnce(s: State, actions: seq<Action>, id: int)
    requires Inv(s) && id in s.sent
    ensures id in Run(s, actions).sent && Run(s, actions).sent[id] == s.sent[id]
    decreases |actions|
  {
    hide Inv, Apply;
    if actions != [] {
      StepKeepsInv(s, actions[0]);
      StepFixesOutcome(s, actions[0], id);
      ResolvedOnce(Apply(s, actions[0]), actions[1..], id);
    }
  }

  /** What a caller is given for request `id` is the agent's answer numbered `id`, or the closing of
      the connection. */
  lemma CallerGetsItsOwnAnswer(actions: seq<Action>, id: int, outcome: Outcome)
    requires At(Run(Fresh(), actions), id, Finished(Delivered(outcome)))
    ensures outcome.Closed? || Response(Number(id), outcome) in Run(Fresh(), actions).received
  {
    Reachable(actions, id);
  }

  /** Why a request is where it is on its way out. */
  predicate Explained(s: State, id: int) {
    && (At(s, id, Rejecting) || At(s, id, Finished(Refused)) ==> !s.connected)
    && (At(s, id, WriterGone) || At(s, id, Finished(Unwritten)) ==> !s.writerOpen)
  }

  lemma StepExplains(s: State, a: Action, id: int)
    requires Explained(s, id)
    ensures Explained(Apply(s, a), id)
  {
    hide FailAll, HungUp, Droppable, PassedSecondLook;
    match a
    case Receive(response) =>
    case FailPending =>
    case _ =>
  }

  lemma {:induction false} RunExplains(s: State, actions: seq<Action>, id: int)
    requires Explained(s, id)
    ensures Explained(Run(s, actions), id)
    decreases |actions|
  {
    if actions != [] {
      StepExplains(s, actions[0], id);
      hide Apply, Explained;
      RunExplains(Apply(s, actions[0]), actions[1..], id);
    }
  }

  predicate RanOut(s: State, id: int) {
    At(s, id, TimedOut) || At(s, id, Finished(Expired))
  }

  lemma StepRunsOut(s: State, a: Action, id: int)
    ensures RanOut(Apply(s, a), id) ==> RanOut(s, id) || a == Timeout(id)
  {
    hide FailAll, HungUp, Droppable, PassedSecondLook;
    match a
    case Receive(response) =>
    case FailPending =>
    case _ =>
  }

  lemma {:induction false} RanOutByTimeout(s: State, actions: seq<Action>, id: int)
    requires RanOut(Run(s, actions), id)
    ensures RanOut(s, id) || Timeout(id) in actions
    decreases |actions|
  {
    if actions != [] {
      var s' := Apply(s, actions[0]);
      StepRunsOut(s, actions[0], id);
      assert actions == [actions[0]] + actions[1..];
      hide Apply, RanOut;
      RanOutByTimeout(s', actions[1..], id);
    }
  }

  /** What a caller is told of its request is so in every run: refused only by a closed connection, unwritten
      only by a closed writer, expired only past its deadline, and otherwise what its channel carries. */
  lemma EndingTellsWhy(actions: seq<Action>, id: int)
    ensures var s := Run(Fresh(), actions);
            && (At(s, id, Finished(Refused)) ==> !s.connected)
            && (At(s, id, Finished(Unwritten)) ==> !s.writerOpen)
            && (At(s, id, Finished(Expired)) ==> Timeout(id) in actions)
            && (forall outcome :: At(s, id, Finished(Delivered(outcome))) ==> id in s.sent && s.sent[id] == outcome)
  {
    RunExplains(Fresh(), actions, id);
    if At(Run(Fresh(), actions), id, Finished(Expired)) {
      RanOutByTimeout(Fresh(), actions, id);
    }
    Reachable(actions, id);
  }

  predicate SameFor(s: State, s': State, id: int) {
    && (id in s.phases <==> id in s'.phases) && (id in s.phases ==> s'.phases[id] == s.phases[id])
    && (id in s.sent <==> id in s'.sent) && (id in s.sent ==> s'.sent[id] == s.sent[id])
    && (id in s'.pending ==> id in s.pending)
    && (id in s.pending && id !in s'.pending ==> HungUp(s, id))
  }

  /** In any state, a response numbered n resolves request n exactly when its caller still listens, and
      changes nothing for any other request, save forgetting entries nobody listens to. */
  lemma ResponseResolvesOnlyItsRequest(s: State, n: int, outcome: Outcome, other: int)
    ensures var s' := Apply(s, Receive(Response(Number(n), outcome)));
            && (other != n ==> SameFor(s, s', other))
            && (n in s.pending && !HungUp(s, n) ==> n !in s'.pending && n in s'.sent && s'.sent[n] == outcome)
            && (n !in s.pending || HungUp(s, n) ==> s'.sent == s.sent && SameFor(s, s', n))
  {
  }

  /** In any state, a response that arrives after its request timed out changes no request at all. */
  lemma LateResponseChangesNothing(s: State, n: int, outcome: Outcome)
    requires At(s, n, TimedOut) || At(s, n, Finished(Expired))
    ensures var s' := Apply(s, Receive(Response(Number(n), outcome)));
            s'.sent == s.sent && s'.phases == s.phases && n !in s'.pending && forall id :: SameFor(s, s', id)
  {
    forall id
      ensures SameFor(s, Apply(s, Receive(Response(Number(n), outcome))), id)
    {
      ResponseResolvesOnlyItsRequest(s, n, outcome, id);
    }
  }
}
