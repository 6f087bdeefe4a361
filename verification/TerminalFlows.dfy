/**
 One terminal sign-in flow. Output: a bounded scrollback and a bounded broadcast, attached to
 together. Outcome: racing finishers, a success hook run under the status lock, and pollers.
 */
module TerminalFlows {
  import opened Collections

  const MAX_SCROLLBACK_BYTES: nat := 64 * 1024
  const OUTPUT_BROADCAST_DEPTH: nat := 256

  // ------------------------------------------------------------ output

  /** An attached client: the tail it was given, its place in the feed when it joined and now, what it
      received, and how many bytes the feed dropped on it. */
  datatype Client = Client(scrollback: seq<Byte>, joined: nat, next: nat, received: seq<Byte>, missed: nat)

  /** `sent` lists every chunk ever pumped; the broadcast keeps the last `OUTPUT_BROADCAST_DEPTH`. */
  datatype Output = Output(scrollback: seq<Byte>, sent: seq<seq<Byte>>, clients: map<nat, Client>)

  datatype OutputAction = Pump(chunk: seq<Byte>) | Attach(client: nat) | Receive(client: nat) | Detach(client: nat)

  function Oldest(s: Output): nat {
    if |s.sent| <= OUTPUT_BROADCAST_DEPTH then 0 else |s.sent| - OUTPUT_BROADCAST_DEPTH
  }

  predicate Lags(s: Output, c: Client) {
    c.next < Oldest(s)
  }

  /** One receive: the next chunk, or after lagging a jump to the oldest one kept. */
  function Received(s: Output, c: Client): Client {
    if Lags(s, c) then c.(next := Oldest(s), missed := c.missed + |Flatten(s.sent[c.next..Oldest(s)])|)
    else if c.next < |s.sent| then c.(next := c.next + 1, received := c.received + s.sent[c.next])
    else c
  }

  function ApplyOutput(s: Output, a: OutputAction): Output {
    match a
    case Pump(chunk) => s.(scrollback := Newest(MAX_SCROLLBACK_BYTES, s.scrollback + chunk), sent := s.sent + [chunk])
    case Attach(client) =>
      if client in s.clients then s
      else s.(clients := s.clients[client := Client(s.scrollback, |s.sent|, |s.sent|, [], 0)])
    case Receive(client) =>
      if client in s.clients then s.(clients := s.clients[client := Received(s, s.clients[client])]) else s
    case Detach(client) => s.(clients := s.clients - {client})
  }

  function RunOutput(s: Output, actions: seq<OutputAction>): Output
    decreases |actions|
  {
    if actions == [] then s else RunOutput(ApplyOutput(s, actions[0]), actions[1..])
  }

  function Silent(): Output {
    Output([], [], map[])
  }

  /** Every byte pumped so far. */
  function Total(s: Output): seq<Byte> {
    Flatten(s.sent)
  }

  predicate ClientInv(s: Output, c: Client) {
    && c.joined <= c.next <= |s.sent|
    && c.scrollback == Newest(MAX_SCROLLBACK_BYTES, Flatten(s.sent[..c.joined]))
    && |c.received| + c.missed == |Flatten(s.sent[c.joined..c.next])|
    && (c.missed == 0 ==> c.received == Flatten(s.sent[c.joined..c.next]))
  }

  ghost predicate OutputInv(s: Output) {
    && s.scrollback == Newest(MAX_SCROLLBACK_BYTES, Total(s))
    && forall client :: client in s.clients ==> ClientInv(s, s.clients[client])
  }

  lemma FlattenSplit<T>(pieces: seq<seq<T>>, i: nat, j: nat, k: nat)
    requires i <= j <= k <= |pieces|
    ensures Flatten(pieces[i..k]) == Flatten(pieces[i..j]) + Flatten(pieces[j..k])
  {
    assert pieces[i..k] == pieces[i..j] + pieces[j..k];
    FlattenConcat(pieces[i..j], pieces[j..k]);
  }

  lemma PumpKeepsClient(s: Output, chunk: seq<Byte>, c: Client)
    requires ClientInv(s, c)
    ensures ClientInv(ApplyOutput(s, Pump(chunk)), c)
  {
    var sent := s.sent + [chunk];
    assert sent[..c.joined] == s.sent[..c.joined] && sent[c.joined..c.next] == s.sent[c.joined..c.next];
  }

  lemma ReceiveKeepsClient(s: Output, c: Client)
    requires ClientInv(s, c)
    ensures ClientInv(s, Received(s, c))
  {
    if Lags(s, c) {
      FlattenSplit(s.sent, c.joined, c.next, Oldest(s));
      if Received(s, c).missed == 0 {
        assert c.received + [] == c.received;
      }
    } else if c.next < |s.sent| {
      FlattenOne(s.sent[c.joined..c.next], s.sent[c.next]);
      assert s.sent[c.joined..c.next + 1] == s.sent[c.joined..c.next] + [s.sent[c.next]];
    }
  }

  lemma OutputStepKeepsInv(s: Output, a: OutputAction)
    requires OutputInv(s)
    ensures OutputInv(ApplyOutput(s, a))
  {
    var s' := ApplyOutput(s, a);
    match a {
      case Pump(chunk) =>
        NewestOfNewest(MAX_SCROLLBACK_BYTES, Total(s), chunk);
        FlattenOne(s.sent, chunk);
        forall client | client in s'.clients
          ensures ClientInv(s', s'.clients[client])
        {
          PumpKeepsClient(s, chunk, s.clients[client]);
        }
      case Attach(client) =>
        assert s.sent[..|s.sent|] == s.sent && s.sent[|s.sent|..|s.sent|] == [];
      case Receive(client) =>
        if client in s.clients {
          ReceiveKeepsClient(s, s.clients[client]);
        }
      case Detach(_) =>
    }
  }

  lemma {:induction false} OutputRunKeepsInv(s: Output, actions: seq<OutputAction>)
    requires OutputInv(s)
    ensures OutputInv(RunOutput(s, actions))
    decreases |actions|
  {
    hide OutputInv, ApplyOutput;
    if actions != [] {
      OutputStepKeepsInv(s, actions[0]);
      OutputRunKeepsInv(ApplyOutput(s, actions[0]), actions[1..]);
    }
  }

  /** In every run the scrollback is the last bytes ever pumped, up to its bound. */
  lemma ScrollbackIsTheTail(actions: seq<OutputAction>)
    ensures var s := RunOutput(Silent(), actions); s.scrollback == Newest(MAX_SCROLLBACK_BYTES, Total(s))
  {
    OutputRunKeepsInv(Silent(), actions);
  }

  /** The part of all output that a client, had it lost nothing, would hold by now. */
  function Due(s: Output, c: Client): seq<Byte>
    requires c.joined <= c.next <= |s.sent|
  {
    Newest(MAX_SCROLLBACK_BYTES, Flatten(s.sent[..c.joined])) + Flatten(s.sent[c.joined..c.next])
  }

  predicate IsSuffix(t: seq<Byte>, s: seq<Byte>) {
    |t| <= |s| && s[|s| - |t|..] == t
  }

  /** In every run, whenever a client attached: its scrollback and what it then received are a gap-free,
      repeat-free end of all output so far exactly when the feed dropped no byte on it, and in any case
      nothing is unaccounted for. A client up to date then holds an end of everything. */
  lemma AttachedClientsSeeEverything(actions: seq<OutputAction>, client: nat)
    requires client in RunOutput(Silent(), actions).clients
    ensures var s := RunOutput(Silent(), actions);
            var c := s.clients[client];
            && c.joined <= c.next <= |s.sent|
            && (c.scrollback + c.received == Due(s, c) <==> c.missed == 0)
            && |c.scrollback + c.received| + c.missed == |Due(s, c)|
            && IsSuffix(Due(s, c), Flatten(s.sent[..c.next]))
            && (c.next == |s.sent| && c.missed == 0 ==> IsSuffix(c.scrollback + c.received, Total(s)))
  {
    OutputRunKeepsInv(Silent(), actions);
    hide RunOutput;
    ClientHoldsWhatIsDue(RunOutput(Silent(), actions), RunOutput(Silent(), actions).clients[client]);
  }

  lemma ClientHoldsWhatIsDue(s: Output, c: Client)
    requires ClientInv(s, c)
    ensures c.scrollback + c.received == Due(s, c) <==> c.missed == 0
    ensures |c.scrollback + c.received| + c.missed == |Due(s, c)|
    ensures IsSuffix(Due(s, c), Flatten(s.sent[..c.next]))
    ensures c.next == |s.sent| && c.missed == 0 ==> IsSuffix(c.scrollback + c.received, Total(s))
  {
    FlattenSplit(s.sent, 0, c.joined, c.next);
    assert s.sent[0..c.next] == s.sent[..c.next] && s.sent[0..c.joined] == s.sent[..c.joined]
           && s.sent[..|s.sent|] == s.sent;
    hide Flatten, Newest, IsSuffix;
    TailThenRest(Flatten(s.sent[..c.joined]), Flatten(s.sent[c.joined..c.next]));
  }

  lemma TailThenRest(before: seq<Byte>, after: seq<Byte>)
    ensures IsSuffix(Newest(MAX_SCROLLBACK_BYTES, before) + after, before + after)
  {
  }

  /** One receive: within 256 chunks of the newest, the client gets exactly the next chunk, if any, and loses
      nothing; further behind it gets nothing, loses what the feed dropped, and goes on at the oldest kept. */
  lemma ReceiveMeaning(s: Output, client: nat)
    requires client in s.clients && s.clients[client].next <= |s.sent|
    ensures var c, c' := s.clients[client], ApplyOutput(s, Receive(client)).clients[client];
            && c'.scrollback == c.scrollback && c'.joined == c.joined
            && (|s.sent| - c.next <= 256 && c.next < |s.sent| ==>
                  c'.received == c.received + s.sent[c.next] && c'.next == c.next + 1 && c'.missed == c.missed)
            && (c.next == |s.sent| ==> c' == c)
            && (|s.sent| - c.next > 256 ==>
                  && c'.received == c.received && c'.next == |s.sent| - 256
                  && c'.missed == c.missed + |Flatten(s.sent[c.next..c'.next])|)
  {
  }

  /** A client that never was more than 256 chunks behind when it received has missed nothing. */
  predicate AlwaysPrompt(s: Output, actions: seq<OutputAction>, client: nat)
    decreases |actions|
  {
    actions == [] ||
    ((actions[0] == Receive(client) && client in s.clients ==> |s.sent| - s.clients[client].next <= 256)
     && AlwaysPrompt(ApplyOutput(s, actions[0]), actions[1..], client))
  }

  lemma {:induction false} PromptClientMissesNothing(s: Output, actions: seq<OutputAction>, client: nat)
    requires client in s.clients ==> s.clients[client].missed == 0
    requires AlwaysPrompt(s, actions, client)
    ensures client in RunOutput(s, actions).clients ==> RunOutput(s, actions).clients[client].missed == 0
    decreases |actions|
  {
    if actions != [] {
      var s' := ApplyOutput(s, actions[0]);
      assert client in s'.clients ==> s'.clients[client].missed == 0;
      PromptClientMissesNothing(s', actions[1..], client);
    }
  }

  // ------------------------------------------------------------ outcome

  datatype FlowState = Running | Succeeded | Failed | Cancelled | TimedOut

  datatype Ending = Ending(state: FlowState, exitCode: Option<nat>, reason: Option<string>)

  /** A finisher holds the status lock from its check to its assignment; `inHook` is whether it is
      inside the success hook. `seen` lists what pollers saw, with the hook's completed calls then. */
  datatype Outcome = Outcome(
    ending: Ending,
    holder: Option<Ending>,
    inHook: bool,
    hookCalls: nat,
    hookReturns: nat,
    seen: seq<(FlowState, nat)>)

  datatype OutcomeAction = Enter(ending: Ending) | HookReturns | Assign | Poll

  function Started(): Outcome {
    Outcome(Ending(Running, None, None), None, false, 0, 0, [])
  }

  /** `Enter` takes the lock, finds the flow unfinished and calls the hook for a success. */
  function ApplyOutcome(s: Outcome, a: OutcomeAction): Outcome {
    match a
    case Enter(ending) =>
      if s.holder.Some? || !s.ending.state.Running? || ending.state.Running? then s
      else s.(holder := Some(ending), inHook := ending.state.Succeeded?,
              hookCalls := if ending.state.Succeeded? then s.hookCalls + 1 else s.hookCalls)
    case HookReturns => if s.inHook then s.(inHook := false, hookReturns := s.hookReturns + 1) else s
    case Assign => if s.holder.Some? && !s.inHook then s.(ending := s.holder.value, holder := None) else s
    case Poll => if s.holder.Some? then s else s.(seen := s.seen + [(s.ending.state, s.hookReturns)])
  }

  function RunOutcome(s: Outcome, actions: seq<OutcomeAction>): Outcome
    decreases |actions|
  {
    if actions == [] then s else RunOutcome(ApplyOutcome(s, actions[0]), actions[1..])
  }

  predicate OutcomeInv(s: Outcome) {
    && (s.holder.Some? ==> s.ending.state.Running? && !s.holder.value.state.Running?)
    && (s.inHook ==> s.holder.Some? && s.holder.value.state.Succeeded? && s.hookReturns == 0)
    && s.hookCalls
       == (if s.ending.state.Succeeded? || (s.holder.Some? && s.holder.value.state.Succeeded?) then 1 else 0)
    && s.hookReturns == (if s.inHook then 0 else s.hookCalls)
    && forall v :: v in s.seen && v.0.Succeeded? ==> v.1 == 1
  }

  lemma {:induction false} OutcomeRunKeepsInv(s: Outcome, actions: seq<OutcomeAction>)
    requires OutcomeInv(s)
    ensures OutcomeInv(RunOutcome(s, actions))
    decreases |actions|
  {
    if actions != [] {
      OutcomeRunKeepsInv(ApplyOutcome(s, actions[0]), actions[1..]);
    }
  }

  /** In every run the hook is called once if the outcome is a success and never otherwise, and no
      poller saw a success before the hook had returned. */
  lemma SuccessIsPublishedAfterItsHook(actions: seq<OutcomeAction>)
    ensures var s := RunOutcome(Started(), actions);
            && (s.ending.state.Succeeded? ==> s.hookCalls == 1 && s.hookReturns == 1)
            && (!s.ending.state.Running? && !s.ending.state.Succeeded? ==> s.hookCalls == 0)
            && s.hookCalls <= 1
            && forall v :: v in s.seen && v.0.Succeeded? ==> v.1 == 1
  {
    OutcomeRunKeepsInv(Started(), actions);
  }

  /** The first finisher in decides: once it is past its check, its ending is the flow's for ever. */
  lemma {:induction false} FirstFinisherDecides(s: Outcome, actions: seq<OutcomeAction>)
    requires OutcomeInv(s) && (s.holder.Some? || !s.ending.state.Running?)
    ensures var s' := RunOutcome(s, actions);
            var decided := if s.holder.Some? then s.holder.value else s.ending;
            s'.ending == decided || s'.holder == Some(decided)
    decreases |actions|
  {
    if actions != [] {
      OutcomeRunKeepsInv(s, [actions[0]]);
      assert [actions[0]][1..] == [];
      assert RunOutcome(s, [actions[0]]) == RunOutcome(ApplyOutcome(s, actions[0]), []);
      FirstFinisherDecides(ApplyOutcome(s, actions[0]), actions[1..]);
    }
  }

  /** The first finisher of a run whose ending is not still running. */
  function FirstEntering(actions: seq<OutcomeAction>): Option<Ending> {
    if actions == [] then None
    else if actions[0].Enter? && !actions[0].ending.state.Running? then Some(actions[0].ending)
    else FirstEntering(actions[1..])
  }

  /** In every run it is that finisher's ending the flow has or is about to have, and without one it runs on. */
  lemma {:induction false} FirstEnteringStands(s: Outcome, actions: seq<OutcomeAction>)
    requires OutcomeInv(s) && s.holder.None? && s.ending.state.Running?
    ensures var s' := RunOutcome(s, actions);
            match FirstEntering(actions)
            case Some(ending) => s'.ending == ending || (s'.ending == s.ending && s'.holder == Some(ending))
            case None => s'.ending == s.ending && s'.holder.None?
    decreases |actions|
  {
    if actions != [] {
      var s' := ApplyOutcome(s, actions[0]);
      OutcomeStepKeepsInv(s, actions[0]);
      if s'.holder.Some? {
        HolderStands(s', actions[1..]);
      } else {
        FirstEnteringStands(s', actions[1..]);
      }
    }
  }

  lemma OutcomeStepKeepsInv(s: Outcome, a: OutcomeAction)
    requires OutcomeInv(s)
    ensures OutcomeInv(ApplyOutcome(s, a))
  {
  }

  lemma {:induction false} HolderStands(s: Outcome, actions: seq<OutcomeAction>)
    requires OutcomeInv(s) && s.holder.Some?
    ensures var s' := RunOutcome(s, actions);
            s'.ending == s.holder.value || (s'.ending == s.ending && s'.holder == s.holder)
    decreases |actions|
  {
    if actions != [] {
      var s' := ApplyOutcome(s, actions[0]);
      OutcomeStepKeepsInv(s, actions[0]);
      if s'.holder.Some? {
        HolderStands(s', actions[1..]);
      } else {
        EndingStands(s', actions[1..]);
      }
    }
  }

  lemma {:induction false} EndingStands(s: Outcome, actions: seq<OutcomeAction>)
    requires s.holder.None? && !s.ending.state.Running?
    ensures RunOutcome(s, actions).ending == s.ending
    decreases |actions|
  {
    if actions != [] {
      EndingStands(ApplyOutcome(s, actions[0]), actions[1..]);
    }
  }

  // ------------------------------------------------------------ the code

  class TerminalAuthFlow {
    var scrollback: seq<Byte>
    var attached: nat
    var ending: Ending
    ghost var sent: seq<seq<Byte>>
    ghost var clients: map<nat, Client>
    ghost var hookCalls: nat
    /** Detaches of clients that were not attached. */
    ghost var repeated: nat

    /** The count is the clients', short by at most the repeated detaches. */
    ghost predicate Counted()
      reads `attached, `clients, `repeated
    {
      |clients| - repeated <= attached <= |clients|
    }

    ghost function Model(): Output
      reads this
    {
      Output(scrollback, sent, clients)
    }

    ghost predicate Valid()
      reads this
    {
      OutputInv(Model()) && Counted()
    }

    constructor ()
      ensures Valid() && Model() == Silent() && ending == Started().ending && hookCalls == 0
    {
      scrollback, attached, ending := [], 0, Ending(Running, None, None);
      sent, clients, hookCalls, repeated := [], map[], 0, 0;
    }

    method PumpOutput(chunk: seq<Byte>)
      requires Valid()
      modifies this
      ensures Valid() && Model() == ApplyOutput(old(Model()), Pump(chunk))
      ensures sent == old(sent) + [chunk] && clients == old(clients)
      ensures var all := old(scrollback) + chunk;
              |scrollback| == (if |all| <= 65536 then |all| else 65536) && scrollback == all[|all| - |scrollback|..]
    {
      OutputStepKeepsInv(Model(), Pump(chunk));
      hide OutputInv;
      scrollback := scrollback + chunk;
      TrimScrollback();
      sent := sent + [chunk];
    }

    /** Drops the excess from the front until the scrollback fits. */
    method TrimScrollback()
      modifies `scrollback
      ensures scrollback == Newest(MAX_SCROLLBACK_BYTES, old(scrollback))
    {
      var tail := scrollback;
      ghost var dropped: nat := 0;
      while |tail| > MAX_SCROLLBACK_BYTES
        invariant dropped <= |scrollback| && tail == scrollback[dropped..]
        invariant dropped > 0 ==> |tail| == MAX_SCROLLBACK_BYTES
        modifies {}
      {
        var excess := |tail| - MAX_SCROLLBACK_BYTES;
        DropTwice(scrollback, dropped, excess);
        tail := tail[excess..];
        dropped := dropped + excess;
      }
      scrollback := tail;
    }

    /** The tail and a feed subscription, taken together. */
    method AttachClient(ghost client: nat) returns (tail: seq<Byte>)
      requires Valid() && client !in clients
      modifies this
      ensures Valid() && tail == scrollback && Model() == ApplyOutput(old(Model()), Attach(client))
      ensures scrollback == old(scrollback) && sent == old(sent) && attached == old(attached) + 1
      ensures clients == old(clients)[client := Client(tail, |sent|, |sent|, [], 0)]
    {
      OutputStepKeepsInv(Model(), Attach(client));
      hide OutputInv;
      clients := clients[client := Client(scrollback, |sent|, |sent|, [], 0)];
      attached := attached + 1;
      return scrollback;
    }

    /** The counting half of a detach: it stays at zero if a detach ever runs twice. */
    method CountDown(ghost client: nat)
      requires Counted()
      modifies `attached, `clients, `repeated
      ensures Counted() && clients == old(clients) - {client}
      ensures attached == if old(attached) > 0 then old(attached) - 1 else 0
      ensures repeated == old(repeated) + if client in old(clients) then 0 else 1
    {
      DetachCount(clients, client);
      if client !in clients {
        repeated := repeated + 1;
      }
      clients := clients - {client};
      attached := if attached > 0 then attached - 1 else 0;
    }

    method DetachClient(ghost client: nat)
      requires Valid()
      modifies `attached, `clients, `repeated
      ensures Valid() && Model() == ApplyOutput(old(Model()), Detach(client))
      ensures attached == if old(attached) > 0 then old(attached) - 1 else 0
      ensures repeated == old(repeated) + if client in old(clients) then 0 else 1
    {
      OutputStepKeepsInv(Model(), Detach(client));
      ghost var next := ApplyOutput(Model(), Detach(client));
      assert next == Output(scrollback, sent, clients - {client});
      hide OutputInv, Counted, ApplyOutput;
      CountDown(client);
      assert Model() == next;
    }

    /** All of `finish` with its lock held throughout. */
    method Finish(end: Ending)
      requires end.state != Running
      modifies `ending, `hookCalls
      ensures ending == if old(ending).state.Running? then end else old(ending)
      ensures hookCalls == old(hookCalls) + if old(ending).state.Running? && end.state.Succeeded? then 1 else 0
    {
      if ending.state != Running {
        return;
      }
      if end.state == Succeeded {
        hookCalls := hookCalls + 1;
      }
      ending := end;
    }
  }

  lemma DetachCount(clients: map<nat, Client>, client: nat)
    ensures |clients - {client}| == if client in clients then |clients| - 1 else |clients|
  {
    if client in clients {
      SmallerMap(clients, client);
    } else {
      assert clients - {client} == clients;
    }
  }

  lemma DropTwice<T>(s: seq<T>, i: nat, j: nat)
    requires i + j <= |s|
    ensures s[i..][j..] == s[i + j..]
  {
  }

  /** `Finish` is the lock-level sections of one finisher, run together. */
  lemma FinishIsItsSections(s: Outcome, end: Ending)
    requires OutcomeInv(s) && s.holder.None? && !end.state.Running?
    ensures var s' := RunOutcome(s, [Enter(end), HookReturns, Assign]);
            && s'.ending == (if s.ending.state.Running? then end else s.ending)
            && s'.hookCalls == s.hookCalls + (if s.ending.state.Running? && end.state.Succeeded? then 1 else 0)
            && s'.holder.None?
  {
    var a, b, c := Enter(end), HookReturns, Assign;
    var s1 := ApplyOutcome(s, a);
    var s2 := ApplyOutcome(s1, b);
    assert [a, b, c][1..] == [b, c] && [b, c][1..] == [c] && [c][1..] == [];
    assert RunOutcome(s, [a, b, c]) == RunOutcome(s1, [b, c]) == RunOutcome(s2, [c])
           == RunOutcome(ApplyOutcome(s2, c), []);
  }
}
