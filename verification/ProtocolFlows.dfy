/**
 One protocol sign-in flow, lock section by lock section: finishers, captures, waiting notes and
 callback relays race over a status, an optional interaction and a captured flag.
 */
module ProtocolFlows {
  import opened Collections
  import opened CallbackUrls

  datatype FlowState = Running | WaitingForUser | Succeeded | Failed | Cancelled | TimedOut

  datatype Status = Status(state: FlowState, reason: Option<string>, completedAt: Option<nat>)

  datatype Interaction = Interaction(request: AuthorizationRequest, relaying: bool)

  /** `checked` holds the relays past the state check, `relays` those under way with their targets.
      `installs`, `targets` and `succeeded` are everything installed, relayed and relayed well. */
  datatype Flow = Flow(
    status: Status,
    interaction: Option<Interaction>,
    captured: bool,
    checked: set<nat>,
    relays: map<nat, Url>,
    installs: seq<AuthorizationRequest>,
    targets: seq<Url>,
    succeeded: seq<Url>)

  /** A relay begins in two sections, `CheckOpen` and `Begin`; a capture ends with its own
      `NoteWaiting(true)` section. A relay whose caller vanishes never ends. */
  datatype Action =
    | Finish(state: FlowState, reason: Option<string>, now: nat)
    | NoteWaiting(waiting: bool)
    | Capture(request: AuthorizationRequest)
    | CheckOpen(relay: nat)
    | Begin(relay: nat, callback: Raw)
    | End(relay: nat, success: bool)
    | Vanish(relay: nat)

  predicate IsFinished(state: FlowState) {
    !state.Running? && !state.WaitingForUser?
  }

  function Fresh(): Flow {
    Flow(Status(Running, None, None), None, false, {}, map[], [], [], [])
  }

  function Noted(status: Status, waiting: bool): Status {
    if waiting && status.state.Running? then status.(state := WaitingForUser)
    else if !waiting && status.state.WaitingForUser? then status.(state := Running)
    else status
  }

  predicate CanCapture(s: Flow) {
    !IsFinished(s.status.state) && !s.captured
  }

  /** What the second section of a relay's beginning answers. */
  function BeginResult(s: Flow, callback: Raw): Result<Url, UrlError> {
    if s.interaction.None? then Err(InvalidCallback)
    else if s.interaction.value.relaying then Err(CallbackInProgress)
    else ValidateCallback(s.interaction.value.request, callback)
  }

  function Apply(s: Flow, a: Action): Flow {
    match a
    case Finish(state, reason, now) =>
      if IsFinished(s.status.state) || !IsFinished(state) then s
      else s.(status := Status(state, reason, Some(now)), interaction := None)
    case NoteWaiting(waiting) => s.(status := Noted(s.status, waiting))
    case Capture(request) =>
      if CanCapture(s)
      then s.(captured := true, interaction := Some(Interaction(request, false)), installs := s.installs + [request])
      else s
    case CheckOpen(relay) =>
      if IsFinished(s.status.state) || relay in s.relays then s else s.(checked := s.checked + {relay})
    case Begin(relay, callback) =>
      if relay !in s.checked then s
      else
        var result := BeginResult(s, callback);
        var s' := s.(checked := s.checked - {relay});
        if result.Err? then s'
        else s'.(interaction := Some(s.interaction.value.(relaying := true)),
                 relays := s.relays[relay := result.value], targets := s.targets + [result.value])
    case End(relay, success) =>
      if relay !in s.relays then s
      else s.(relays := s.relays - {relay},
              succeeded := if success then s.succeeded + [s.relays[relay]] else s.succeeded,
              interaction :=
                if success || s.interaction.None? then None else Some(s.interaction.value.(relaying := false)))
    case Vanish(relay) => s.(checked := s.checked - {relay}, relays := s.relays - {relay})
  }

  function Run(s: Flow, actions: seq<Action>): Flow
    decreases |actions|
  {
    if actions == [] then s else Run(Apply(s, actions[0]), actions[1..])
  }

  // ------------------------------------------------------------ invariant

  /** The target of some callback to this request. */
  predicate Derived(request: AuthorizationRequest, target: Url) {
    target == RelayUrl(request.redirect, target.query)
  }

  /** One capture in a flow's life, and an interaction only of it, while unfinished. */
  predicate CaptureInv(s: Flow) {
    && (s.captured <==> |s.installs| == 1) && |s.installs| <= 1
    && (s.interaction.Some? ==>
          s.captured && s.interaction.value.request == s.installs[0] && !IsFinished(s.status.state))
    && (IsFinished(s.status.state) <==> s.status.completedAt.Some?)
  }

  /** A relay under way is marked on the interaction, if there still is one; a success leaves none. */
  predicate RelayInv(s: Flow) {
    && (forall a, b :: a in s.relays && b in s.relays ==> a == b)
    && (s.relays != map[] ==> s.captured && s.succeeded == [])
    && (s.relays != map[] && s.interaction.Some? ==> s.interaction.value.relaying)
    && |s.succeeded| <= 1
    && (s.succeeded != [] ==> s.captured && s.interaction.None?)
  }

  predicate TargetInv(s: Flow) {
    && (s.targets != [] ==> s.captured)
    && (forall t :: t in s.targets ==> s.installs != [] && Derived(s.installs[0], t))
    && (forall r :: r in s.relays ==> s.relays[r] in s.targets)
    && (forall t :: t in s.succeeded ==> t in s.targets)
  }

  predicate Inv(s: Flow) {
    CaptureInv(s) && RelayInv(s) && TargetInv(s)
  }

  lemma StepKeepsRelays(s: Flow, a: Action)
    requires Inv(s)
    ensures RelayInv(Apply(s, a))
  {
    hide TargetInv, Derived, ValidateCallback;
    match a {
      case Begin(relay, callback) =>
        if relay in s.checked && BeginResult(s, callback).Ok? {
          assert s.relays == map[];
        }
      case End(relay, success) =>
        if relay in s.relays {
          assert (s.relays - {relay}) == map[];
        }
      case Vanish(relay) =>
        if s.relays == map[] { assert s.relays - {relay} == map[]; }
      case _ =>
    }
  }

  lemma StepKeepsTargets(s: Flow, a: Action)
    requires Inv(s)
    ensures TargetInv(Apply(s, a))
  {
    hide UniqueQueryValue, RelayInv;
    var s' := Apply(s, a);
    if a.Begin? && a.relay in s.checked && BeginResult(s, a.callback).Ok? {
      var target := BeginResult(s, a.callback).value;
      assert Derived(s.installs[0], target);
      hide ValidateCallback, Derived;
      assert forall t :: t in s'.targets ==> t in s.targets || t == target;
      assert target == s'.targets[|s.targets|];
    }
    if a.End? && a.relay in s.relays {
      assert forall t :: t in s'.succeeded ==> t in s.succeeded || t == s.relays[a.relay];
    }
  }

  lemma StepKeepsInv(s: Flow, a: Action)
    requires Inv(s)
    ensures Inv(Apply(s, a))
  {
    StepKeepsRelays(s, a);
    StepKeepsTargets(s, a);
    hide RelayInv, TargetInv, ValidateCallback;
  }

  lemma {:induction false} RunKeepsInv(s: Flow, actions: seq<Action>)
    requires Inv(s)
    ensures Inv(Run(s, actions))
    decreases |actions|
  {
    hide Inv, Apply;
    if actions != [] {
      StepKeepsInv(s, actions[0]);
      RunKeepsInv(Apply(s, actions[0]), actions[1..]);
    }
  }

  // ------------------------------------------------------------ results over every run

  /** The first finisher decides: a finished flow keeps its state, reason and time for ever. */
  lemma {:induction false} FinishedIsFinal(s: Flow, actions: seq<Action>)
    requires IsFinished(s.status.state)
    ensures Run(s, actions).status == s.status
    decreases |actions|
  {
    if actions != [] {
      FinishedIsFinal(Apply(s, actions[0]), actions[1..]);
    }
  }

  /** What the first finisher of a run says. */
  function FirstFinish(actions: seq<Action>): Option<Status> {
    if actions == [] then None
    else if actions[0].Finish? && IsFinished(actions[0].state)
    then Some(Status(actions[0].state, actions[0].reason, Some(actions[0].now)))
    else FirstFinish(actions[1..])
  }

  /** In every run with a finisher the flow ends in the first one's state, for its reason and at its time. */
  lemma {:induction false} FirstFinisherStands(s: Flow, actions: seq<Action>)
    requires !IsFinished(s.status.state)
    ensures FirstFinish(actions).Some? ==> Run(s, actions).status == FirstFinish(actions).value
    ensures FirstFinish(actions).None? ==> !IsFinished(Run(s, actions).status.state)
    decreases |actions|
  {
    if actions != [] {
      var s' := Apply(s, actions[0]);
      if IsFinished(s'.status.state) {
        FinishedIsFinal(s', actions[1..]);
      } else {
        FirstFinisherStands(s', actions[1..]);
      }
    }
  }

  /** What the last waiting note of a run says. */
  function LastNote(waiting: bool, actions: seq<Action>): bool
    decreases |actions|
  {
    if actions == [] then waiting
    else LastNote(if actions[0].NoteWaiting? then actions[0].waiting else waiting, actions[1..])
  }

  /** In every run without a finisher the flow waits for its user exactly when the last note said so. */
  lemma {:induction false} LastNoteShows(s: Flow, actions: seq<Action>)
    requires !IsFinished(s.status.state) && FirstFinish(actions).None?
    ensures Run(s, actions).status
            == Status(if LastNote(s.status.state.WaitingForUser?, actions) then WaitingForUser else Running,
                      s.status.reason, s.status.completedAt)
    decreases |actions|
  {
    if actions != [] {
      LastNoteShows(Apply(s, actions[0]), actions[1..]);
    }
  }

  /** The first request captured before any finisher. */
  function FirstCapture(actions: seq<Action>): Option<AuthorizationRequest> {
    if actions == [] || (actions[0].Finish? && IsFinished(actions[0].state)) then None
    else if actions[0].Capture? then Some(actions[0].request)
    else FirstCapture(actions[1..])
  }

  lemma {:induction false} NothingMoreInstalled(s: Flow, actions: seq<Action>)
    requires s.captured || IsFinished(s.status.state)
    ensures Run(s, actions).installs == s.installs
    decreases |actions|
  {
    if actions != [] {
      NothingMoreInstalled(Apply(s, actions[0]), actions[1..]);
    }
  }

  /** In every run what is installed is that request, unchanged, and nothing else. */
  lemma {:induction false} FirstCaptureStands(s: Flow, actions: seq<Action>)
    requires !s.captured && !IsFinished(s.status.state) && s.installs == []
    ensures Run(s, actions).installs == if FirstCapture(actions).Some? then [FirstCapture(actions).value] else []
    decreases |actions|
  {
    if actions != [] {
      var s' := Apply(s, actions[0]);
      if s'.captured || IsFinished(s'.status.state) {
        NothingMoreInstalled(s', actions[1..]);
      } else {
        FirstCaptureStands(s', actions[1..]);
      }
    }
  }

  /** In every run a finished flow holds no interaction and tells when it ended. */
  lemma FinishedHoldsNothing(actions: seq<Action>)
    ensures var s := Run(Fresh(), actions);
            IsFinished(s.status.state) ==> s.interaction.None? && s.status.completedAt.Some?
    ensures !IsFinished(Run(Fresh(), actions).status.state) ==> Run(Fresh(), actions).status.completedAt.None?
  {
    RunKeepsInv(Fresh(), actions);
  }

  /** In every run at most one authorization request is ever installed. */
  lemma CapturedOnce(actions: seq<Action>)
    ensures |Run(Fresh(), actions).installs| <= 1
    ensures Run(Fresh(), actions).captured <==> Run(Fresh(), actions).installs != []
  {
    RunKeepsInv(Fresh(), actions);
  }

  /** In every run at most one relay is under way, and at most one ever succeeds. */
  lemma OneRelayAtATime(actions: seq<Action>)
    ensures |Run(Fresh(), actions).relays| <= 1 && |Run(Fresh(), actions).succeeded| <= 1
  {
    var s := Run(Fresh(), actions);
    RunKeepsInv(Fresh(), actions);
    if r :| r in s.relays {
      assert s.relays.Keys == {r};
      assert |s.relays| == |s.relays.Keys|;
    } else {
      assert s.relays == map[];
    }
  }

  /** After one success nothing is relayed again, whatever happens. */
  lemma {:induction false} SuccessIsTheLastRelay(s: Flow, actions: seq<Action>)
    requires Inv(s) && s.succeeded != []
    ensures Run(s, actions).targets == s.targets && Run(s, actions).succeeded == s.succeeded
    decreases |actions|
  {
    assert s.relays == map[];
    if actions != [] {
      hide ValidateCallback;
      StepKeepsInv(s, actions[0]);
      hide TargetInv;
      SuccessIsTheLastRelay(Apply(s, actions[0]), actions[1..]);
    }
  }

  /** In every run, whatever was relayed went to the captured port and path at the captured host's
      literal address. */
  lemma RelaysStayOnTheCapturedEndpoint(actions: seq<Action>, target: Url)
    requires target in Run(Fresh(), actions).targets
    ensures var s := Run(Fresh(), actions);
            && |s.installs| == 1
            && var redirect := s.installs[0].redirect;
            && target.scheme == "http" && target.port == Some(redirect.port) && target.path == redirect.path
            && target.host == (if redirect.host.Ipv6Loopback? then Ipv6Loopback else Ipv4Loopback)
            && target.username == "" && target.password.None? && target.fragment.None?
  {
    RunKeepsInv(Fresh(), actions);
  }

  predicate Submits(a: Action, query: Option<seq<(string, string)>>) {
    a.Begin? && a.callback.parsed.Some? && a.callback.parsed.value.query == query
  }

  /** And with the query of a submitted callback. */
  lemma {:induction false} RelaysCarryASubmittedQuery(s: Flow, actions: seq<Action>, target: Url)
    requires target in Run(s, actions).targets && target !in s.targets
    ensures exists a :: a in actions && Submits(a, target.query)
    decreases |actions|
  {
    var s' := Apply(s, actions[0]);
    if target in s'.targets {
      assert actions[0] in actions && Submits(actions[0], target.query);
    } else {
      RelaysCarryASubmittedQuery(s', actions[1..], target);
      var a :| a in actions[1..] && Submits(a, target.query);
      assert a in actions;
    }
  }

  /** In every run a relay begins exactly when an interaction stands that is not being relayed and
      accepts the callback; it is then the only one under way unless an earlier caller vanished. */
  lemma BeginsExactly(actions: seq<Action>, relay: nat, callback: Raw)
    requires relay in Run(Fresh(), actions).checked && relay !in Run(Fresh(), actions).relays
    ensures var s := Run(Fresh(), actions);
            relay in Apply(s, Begin(relay, callback)).relays <==>
              s.interaction.Some? && !s.interaction.value.relaying
              && ValidateCallback(s.interaction.value.request, callback).Ok?
    ensures var s := Run(Fresh(), actions);
            relay in Apply(s, Begin(relay, callback)).relays ==> s.relays == map[] && !IsFinished(s.status.state)
  {
    hide ValidateCallback;
    RunKeepsInv(Fresh(), actions);
  }

  /** A relay whose caller vanished blocks every later one until the flow ends. */
  lemma {:induction false} VanishedRelayBlocks(s: Flow, actions: seq<Action>)
    requires Inv(s) && s.interaction.Some? && s.interaction.value.relaying && s.relays == map[]
    ensures Run(s, actions).targets == s.targets
    decreases |actions|
  {
    if actions != [] {
      hide ValidateCallback, TargetInv;
      StepKeepsInv(s, actions[0]);
      var s' := Apply(s, actions[0]);
      if actions[0].Finish? && s'.interaction.None? {
        NothingToRelay(s', actions[1..]);
      } else {
        VanishedRelayBlocks(s', actions[1..]);
      }
    }
  }

  lemma {:induction false} NothingToRelay(s: Flow, actions: seq<Action>)
    requires s.captured && s.interaction.None?
    ensures Run(s, actions).targets == s.targets
    decreases |actions|
  {
    if actions != [] {
      NothingToRelay(Apply(s, actions[0]), actions[1..]);
    }
  }

  // ------------------------------------------------------------ the code

  class ProtocolAuthFlow {
    var status: Status
    var interaction: Option<Interaction>
    var authorizationCaptured: bool
    ghost var checked: set<nat>
    ghost var relays: map<nat, Url>
    ghost var installs: seq<AuthorizationRequest>
    ghost var targets: seq<Url>
    ghost var succeeded: seq<Url>

    ghost function Model(): Flow
      reads this
    {
      Flow(status, interaction, authorizationCaptured, checked, relays, installs, targets, succeeded)
    }

    ghost predicate Valid()
      reads this
    {
      Inv(Model())
    }

    constructor ()
      ensures Valid() && Model() == Fresh()
    {
      status, interaction, authorizationCaptured := Status(Running, None, None), None, false;
      checked, relays, installs, targets, succeeded := {}, map[], [], [], [];
    }

    method FinishFlow(state: FlowState, reason: Option<string>, now: nat)
      requires Valid() && IsFinished(state)
      modifies this
      ensures Valid() && Model() == Apply(old(Model()), Finish(state, reason, now))
      ensures old(status.state).Running? || old(status.state).WaitingForUser? ==>
                status == Status(state, reason, Some(now)) && interaction == None
      ensures !(old(status.state).Running? || old(status.state).WaitingForUser?) ==> Model() == old(Model())
    {
      StepKeepsInv(Model(), Finish(state, reason, now));
      if IsFinished(status.state) {
        return;
      }
      status := Status(state, reason, Some(now));
      interaction := None;
    }

    method NoteWaiting(waiting: bool)
      requires Valid()
      modifies this
      ensures Valid() && Model() == Apply(old(Model()), Action.NoteWaiting(waiting))
      ensures old(status.state).Running? || old(status.state).WaitingForUser? ==>
                status == old(status).(state := if waiting then WaitingForUser else Running)
      ensures !(old(status.state).Running? || old(status.state).WaitingForUser?) ==> status == old(status)
      ensures interaction == old(interaction) && authorizationCaptured == old(authorizationCaptured)
    {
      StepKeepsInv(Model(), Action.NoteWaiting(waiting));
      if IsFinished(status.state) {
        return;
      }
      if waiting && status.state == Running {
        status := status.(state := WaitingForUser);
      } else if !waiting && status.state == WaitingForUser {
        status := status.(state := Running);
      }
    }

    method InstallAuthorization(request: AuthorizationRequest) returns (installed: bool)
      requires Valid()
      modifies this
      ensures Valid() && Model() == Apply(old(Model()), Capture(request))
      ensures installed <==> (status.state.Running? || status.state.WaitingForUser?) && !old(authorizationCaptured)
      ensures installed ==> interaction == Some(Interaction(request, false)) && authorizationCaptured
      ensures !installed ==> Model() == old(Model())
      ensures status == old(status)
    {
      StepKeepsInv(Model(), Capture(request));
      if IsFinished(status.state) || authorizationCaptured {
        return false;
      }
      authorizationCaptured := true;
      interaction := Some(Interaction(request, false));
      installs := installs + [request];
      return true;
    }

    /** Both sections of a capture, with nothing in between. */
    method SetAuthorizationRequest(request: AuthorizationRequest) returns (installed: bool)
      requires Valid()
      modifies this
      ensures Valid()
      ensures installed <==>
                (old(status.state).Running? || old(status.state).WaitingForUser?) && !old(authorizationCaptured)
      ensures installed ==> interaction == Some(Interaction(request, false)) && status.state == WaitingForUser
      ensures !installed ==> Model() == old(Model())
    {
      installed := InstallAuthorization(request);
      if installed {
        NoteWaiting(true);
      }
    }

    method CheckNotFinished(ghost relay: nat) returns (open: bool)
      requires Valid() && relay !in relays
      modifies this
      ensures Valid() && open == !IsFinished(status.state) && Model() == Apply(old(Model()), CheckOpen(relay))
    {
      StepKeepsInv(Model(), CheckOpen(relay));
      if IsFinished(status.state) {
        return false;
      }
      checked := checked + {relay};
      return true;
    }

    method BeginCallback(ghost relay: nat, callback: Raw) returns (result: Result<Url, UrlError>)
      requires Valid() && relay in checked
      modifies this
      ensures Valid() && result == BeginResult(old(Model()), callback)
              && Model() == Apply(old(Model()), Begin(relay, callback))
      ensures old(interaction).None? ==> result == Err(InvalidCallback)
      ensures old(interaction).Some? && old(interaction).value.relaying ==> result == Err(CallbackInProgress)
      ensures old(interaction).Some? && !old(interaction).value.relaying ==>
                result == ValidateCallback(old(interaction).value.request, callback)
      ensures result.Ok? ==> interaction == Some(Interaction(old(interaction).value.request, true))
                             && relays == old(relays)[relay := result.value] && targets == old(targets) + [result.value]
      ensures result.Err? ==> interaction == old(interaction) && relays == old(relays) && targets == old(targets)
      ensures status == old(status) && checked == old(checked) - {relay}
    {
      StepKeepsInv(Model(), Begin(relay, callback));
      hide Inv, ValidateCallback;
      checked := checked - {relay};
      if interaction.None? {
        return Err(InvalidCallback);
      }
      if interaction.value.relaying {
        return Err(CallbackInProgress);
      }
      result := ValidateCallback(interaction.value.request, callback);
      if result.Ok? {
        interaction := Some(interaction.value.(relaying := true));
        relays := relays[relay := result.value];
        targets := targets + [result.value];
      }
    }

    method FinishCallback(ghost relay: nat, success: bool)
      requires Valid() && relay in relays
      modifies this
      ensures Valid() && Model() == Apply(old(Model()), End(relay, success))
      ensures success ==> interaction == None && succeeded == old(succeeded) + [old(relays)[relay]]
      ensures !success ==> succeeded == old(succeeded)
      ensures !success && old(interaction).Some? ==>
                interaction == Some(Interaction(old(interaction).value.request, false))
      ensures !success && old(interaction).None? ==> interaction == None
      ensures status == old(status) && relays == old(relays) - {relay}
    {
      StepKeepsInv(Model(), End(relay, success));
      hide Inv;
      if success {
        interaction := None;
        succeeded := succeeded + [relays[relay]];
      } else if interaction.Some? {
        interaction := Some(interaction.value.(relaying := false));
      }
      relays := relays - {relay};
    }

    /** One relay with nothing in between: `delivered` is whether the agent's endpoint answered well. */
    method RelayProtocolCallback(ghost relay: nat, callback: Raw, delivered: bool)
      returns (result: Result<bool, UrlError>)
      requires Valid() && relay !in checked && relay !in relays
      modifies this
      ensures Valid() && status == old(status) && checked == old(checked) && relays == old(relays)
      ensures result.Ok? <==> !IsFinished(status.state) && BeginResult(old(Model()), callback).Ok?
      ensures IsFinished(status.state) ==> result == Err(FlowFinished)
      ensures result.Ok? ==>
                && result.value == delivered && old(interaction).Some?
                && ValidateCallback(old(interaction).value.request, callback).Ok?
                && targets == old(targets) + [ValidateCallback(old(interaction).value.request, callback).value]
      ensures result.Ok? && delivered ==> interaction.None? && |succeeded| == 1
      ensures !(result.Ok? && delivered) ==> interaction == old(interaction) && succeeded == old(succeeded)
    {
      hide ValidateCallback;
      var open := CheckNotFinished(relay);
      if !open {
        return Err(FlowFinished);
      }
      var target := BeginCallback(relay, callback);
      assert checked == old(checked);
      if target.Err? {
        return Err(target.error);
      }
      FinishCallback(relay, delivered);
      assert relays == old(relays);
      return Ok(delivered);
    }
  }
}
