/**
 Install and update operations: each one's status, and the registry that refuses a second running
 operation per agent and prunes finished ones by age and by count.
 */
module Operations {
  import opened Collections

  const MAX_TERMINAL_OPERATIONS: nat := 50
  /** Ten minutes. Times are in milliseconds. */
  const TERMINAL_RETENTION: int := 600_000

  datatype OpState = Running | Succeeded | Failed

  datatype Stage = Resolving | Downloading | Verifying | Extracting | Preparing | Finalizing | Completed | StageFailed

  datatype Status = Status(
    state: OpState,
    stage: Stage,
    downloaded: nat,
    total: Option<nat>,
    error: Option<string>,
    completedAt: Option<int>,
    updated: Option<bool>,
    toVersion: Option<string>)

  datatype Operation = Operation(agent: string, registry: string, startedAt: int, status: Status)

  function NewStatus(): Status {
    Status(Running, Resolving, 0, None, None, None, None, None)
  }

  datatype Progress =
    | UpdateStage(stage: Stage)
    | UpdateDownload(downloaded: nat, total: Option<nat>)
    | Succeed(updated: Option<bool>, toVersion: Option<string>, at: int)
    | Fail(error: string, failedAt: int)

  /** A finished operation takes no further progress. */
  function After(status: Status, p: Progress): Status {
    if !status.state.Running? then status
    else match p
      case UpdateStage(stage) => status.(stage := stage)
      case UpdateDownload(downloaded, total) => status.(stage := Downloading, downloaded := downloaded, total := total)
      case Succeed(updated, toVersion, at) =>
        status.(state := Succeeded, stage := Completed, updated := updated, toVersion := toVersion,
                completedAt := Some(at))
      case Fail(error, at) =>
        status.(state := Failed, stage := StageFailed, error := Some(error), completedAt := Some(at))
  }

  // ------------------------------------------------------------ pruning

  type Ops = map<string, Operation>

  predicate IsTerminal(op: Operation) {
    op.status.completedAt.Some?
  }

  predicate Expired(op: Operation, now: int) {
    IsTerminal(op) && now - op.status.completedAt.value >= TERMINAL_RETENTION
  }

  function Terminals(ops: Ops): set<string> {
    set id | id in ops && IsTerminal(ops[id])
  }

  function Retained(ops: Ops, now: int): Ops {
    map id | id in ops && !Expired(ops[id], now) :: ops[id]
  }

  predicate CompletedBefore(a: Operation, b: Operation) {
    IsTerminal(a) && IsTerminal(b) && a.status.completedAt.value <= b.status.completedAt.value
  }

  /** `kept` is what a prune may leave: every running operation, and of the unexpired finished ones all,
      or the fifty latest. Among equal times any may go. */
  ghost predicate Pruned(ops: Ops, now: int, kept: Ops) {
    var retained := Retained(ops, now);
    && (forall id :: id in kept ==> id in retained && kept[id] == retained[id])
    && (forall id :: id in ops && !IsTerminal(ops[id]) ==> id in kept)
    && |Terminals(kept)|
       == (if |Terminals(retained)| <= MAX_TERMINAL_OPERATIONS then |Terminals(retained)| else MAX_TERMINAL_OPERATIONS)
    && (forall gone, id :: gone in retained && gone !in kept && id in kept && IsTerminal(kept[id]) ==>
          CompletedBefore(retained[gone], kept[id]))
  }

  /** After a prune at most fifty finished operations remain, none expired, none older than one dropped
      by the count, and no running one is gone. */
  lemma PruneBounds(ops: Ops, now: int, kept: Ops)
    requires Pruned(ops, now, kept)
    ensures |set id | id in kept && kept[id].status.completedAt.Some?| <= 50
    ensures forall id :: id in kept ==> id in ops && kept[id] == ops[id]
    ensures forall id :: id in kept && kept[id].status.completedAt.Some? ==>
              now - kept[id].status.completedAt.value < 600000
    ensures forall id :: id in ops && id !in kept && ops[id].status.completedAt.Some?
                         && now - ops[id].status.completedAt.value < 600000 ==>
              forall other :: other in kept && kept[other].status.completedAt.Some? ==>
                ops[id].status.completedAt.value <= kept[other].status.completedAt.value
    ensures forall id :: id in ops && !IsTerminal(ops[id]) ==> id in kept && kept[id] == ops[id]
    ensures |Terminals(Retained(ops, now))| <= MAX_TERMINAL_OPERATIONS ==> kept == Retained(ops, now)
  {
    var retained := Retained(ops, now);
    assert Terminals(kept) == set id | id in kept && kept[id].status.completedAt.Some?;
    forall id | id in ops && id !in kept && IsTerminal(ops[id]) && !Expired(ops[id], now)
      ensures forall other :: other in kept && IsTerminal(kept[other]) ==> CompletedBefore(ops[id], kept[other])
    {
      assert id in retained;
    }
    if |Terminals(retained)| <= MAX_TERMINAL_OPERATIONS {
      assert Terminals(kept) <= Terminals(retained);
      SubsetOfSameSize(Terminals(kept), Terminals(retained));
      forall id | id in retained
        ensures id in kept
      {
        if IsTerminal(retained[id]) { assert id in Terminals(retained); }
      }
    }
  }

  lemma {:induction false} SubsetOfSameSize(a: set<string>, b: set<string>)
    requires a <= b && |a| == |b|
    ensures a == b
    decreases |a|
  {
    if a == {} {
    } else {
      var x :| x in a;
      assert a == (a - {x}) + {x} && b == (b - {x}) + {x};
      SubsetOfSameSize(a - {x}, b - {x});
    }
  }

  // ------------------------------------------------------------ the registry

  datatype Action =
    | Register(id: string, agent: string, registry: string, now: int, kept: Ops)
    | Advance(id: string, progress: Progress)
    | Prune(now: int, kept: Ops)

  predicate IsBusy(ops: Ops, agent: string) {
    exists id :: id in ops && ops[id].agent == agent && ops[id].status.state.Running?
  }

  /** The registry and the ids ever used. A registration and every lookup prune first. */
  datatype Registry = Registry(ops: Ops, used: set<string>)

  ghost predicate Allowed(s: Registry, a: Action) {
    match a
    case Register(id, agent, registry, now, kept) => id !in s.used && Pruned(s.ops, now, kept)
    case Advance(id, progress) => true
    case Prune(now, kept) => Pruned(s.ops, now, kept)
  }

  ghost function Apply(s: Registry, a: Action): Registry {
    match a
    case Register(id, agent, registry, now, kept) =>
      if IsBusy(kept, agent) then s.(ops := kept)
      else s.(ops := kept[id := Operation(agent, registry, now, NewStatus())], used := s.used + {id})
    case Advance(id, progress) =>
      if id in s.ops then s.(ops := s.ops[id := s.ops[id].(status := After(s.ops[id].status, progress))]) else s
    case Prune(now, kept) => s.(ops := kept)
  }

  ghost predicate IsRun(s: Registry, actions: seq<Action>)
    decreases |actions|
  {
    actions == [] || (Allowed(s, actions[0]) && IsRun(Apply(s, actions[0]), actions[1..]))
  }

  ghost function Run(s: Registry, actions: seq<Action>): Registry
    decreases |actions|
  {
    if actions == [] then s else Run(Apply(s, actions[0]), actions[1..])
  }

  predicate BothRunning(a: Operation, b: Operation) {
    a.agent == b.agent && a.status.state.Running? && b.status.state.Running?
  }

  ghost predicate Inv(s: Registry) {
    && (forall id :: id in s.ops ==> id in s.used && (s.ops[id].status.state.Running? <==> !IsTerminal(s.ops[id])))
    && (forall a, b :: a in s.ops && b in s.ops && BothRunning(s.ops[a], s.ops[b]) ==> a == b)
  }

  lemma PruneKeepsInv(s: Registry, now: int, kept: Ops)
    requires Inv(s) && Pruned(s.ops, now, kept)
    ensures Inv(s.(ops := kept))
    ensures forall id :: id in kept ==> id in s.ops && kept[id] == s.ops[id]
    ensures forall id :: id in s.ops && s.ops[id].status.state.Running? ==> id in kept
  {
  }

  lemma StepKeepsInv(s: Registry, a: Action)
    requires Inv(s) && Allowed(s, a)
    ensures Inv(Apply(s, a))
  {
    match a
    case Register(id, agent, registry, now, kept) =>
      PruneKeepsInv(s, now, kept);
      if !IsBusy(kept, agent) {
        AddKeepsInv(s.(ops := kept), id, Operation(agent, registry, now, NewStatus()));
      }
    case Advance(id, progress) =>
    case Prune(now, kept) => PruneKeepsInv(s, now, kept);
  }

  lemma AddKeepsInv(s: Registry, id: string, op: Operation)
    requires Inv(s) && id !in s.used && !IsBusy(s.ops, op.agent) && op.status == NewStatus()
    ensures Inv(Registry(s.ops[id := op], s.used + {id}))
  {
  }

  /** In every run at most one operation per agent is running. */
  lemma {:induction false} OneRunningPerAgent(s: Registry, actions: seq<Action>)
    requires Inv(s) && IsRun(s, actions)
    ensures Inv(Run(s, actions))
    decreases |actions|
  {
    hide Inv, Allowed, Apply;
    if actions != [] {
      StepKeepsInv(s, actions[0]);
      OneRunningPerAgent(Apply(s, actions[0]), actions[1..]);
    }
  }

  /** What a step or a run may do to one operation: keep it under its agent, and leave it as it is if it
      had finished; a running one is never dropped. */
  predicate Follows(before: Ops, after: Ops, id: string) {
    && (id in before && before[id].status.state.Running? ==> id in after)
    && (id in before && id in after ==>
          after[id].agent == before[id].agent && after[id].startedAt == before[id].startedAt)
    && (id in before && id in after && !before[id].status.state.Running? ==> after[id] == before[id])
  }

  lemma StepFollows(s: Registry, a: Action, id: string)
    requires Inv(s) && Allowed(s, a) && id in s.used
    ensures Follows(s.ops, Apply(s, a).ops, id) && id in Apply(s, a).used
    ensures id !in s.ops ==> id !in Apply(s, a).ops
  {
  }

  /** In every run a finished operation never changes, a dropped one never returns, and a running one is
      never dropped. */
  lemma {:induction false} FinishedNeverChanges(s: Registry, actions: seq<Action>, id: string)
    requires Inv(s) && IsRun(s, actions) && id in s.used
    requires id !in s.ops || !s.ops[id].status.state.Running?
    ensures var after := Run(s, actions).ops; id in after ==> id in s.ops && after[id] == s.ops[id]
    decreases |actions|
  {
    if actions != [] {
      StepKeepsInv(s, actions[0]);
      StepFollows(s, actions[0], id);
      hide Inv, Allowed, Apply;
      FinishedNeverChanges(Apply(s, actions[0]), actions[1..], id);
    }
  }

  /** In every run a running operation is still registered until it finishes: while no progress of its
      own ends it, it stays. */
  lemma {:induction false} RunningIsNeverDropped(s: Registry, actions: seq<Action>, id: string)
    requires Inv(s) && IsRun(s, actions) && id in s.ops && s.ops[id].status.state.Running?
    requires forall a :: a in actions && a.Advance? && a.id == id ==> !a.progress.Succeed? && !a.progress.Fail?
    ensures id in Run(s, actions).ops && Run(s, actions).ops[id].status.state.Running?
    decreases |actions|
  {
    if actions != [] {
      var s' := Apply(s, actions[0]);
      assert actions[0] in actions;
      StepKeepsInv(s, actions[0]);
      assert id in s'.ops && s'.ops[id].status.state.Running?;
      assert forall a :: a in actions[1..] ==> a in actions;
      hide Inv, Allowed, Apply;
      RunningIsNeverDropped(s', actions[1..], id);
    }
  }

  /** The report that ends an operation. */
  predicate Ends(a: Action, id: string) {
    a.Advance? && a.id == id && (a.progress.Succeed? || a.progress.Fail?)
  }

  /** The status an operation shows after a run of reports: the first ending report decides for good. */
  function FirstEnd(actions: seq<Action>, id: string): Option<Progress> {
    if actions == [] then None
    else if Ends(actions[0], id) then Some(actions[0].progress)
    else FirstEnd(actions[1..], id)
  }

  predicate EndsAs(status: Status, end: Progress) {
    match end
    case Succeed(updated, toVersion, at) =>
      && status.state == Succeeded && status.stage == Completed && status.completedAt == Some(at)
      && status.updated == updated && status.toVersion == toVersion && status.error == None
    case Fail(error, at) =>
      && status.state == Failed && status.stage == StageFailed && status.completedAt == Some(at)
      && status.error == Some(error) && status.updated == None && status.toVersion == None
    case _ => false
  }

  /** A running operation has no outcome yet. */
  predicate Blank(status: Status) {
    status.state == Running && status.error == None && status.updated == None && status.toVersion == None
    && status.completedAt == None
  }

  lemma EndingStep(s: Registry, a: Action, id: string)
    requires Inv(s) && Allowed(s, a) && id in s.ops && Blank(s.ops[id].status)
    ensures id in Apply(s, a).ops && id in Apply(s, a).used
    ensures Ends(a, id) ==> EndsAs(Apply(s, a).ops[id].status, a.progress)
    ensures !Ends(a, id) ==> Blank(Apply(s, a).ops[id].status)
  {
    StepFollows(s, a, id);
  }

  /** In every run a running operation ends as its first ending report says, success or failure, with that
      report's details; without one it goes on without an outcome. */
  lemma {:induction false} FirstEndDecides(s: Registry, actions: seq<Action>, id: string)
    requires Inv(s) && IsRun(s, actions) && id in s.ops && Blank(s.ops[id].status)
    ensures FirstEnd(actions, id).None? ==> id in Run(s, actions).ops && Blank(Run(s, actions).ops[id].status)
    ensures FirstEnd(actions, id).Some? && id in Run(s, actions).ops ==>
              EndsAs(Run(s, actions).ops[id].status, FirstEnd(actions, id).value)
    decreases |actions|
  {
    if actions != [] {
      var s' := Apply(s, actions[0]);
      StepKeepsInv(s, actions[0]);
      EndingStep(s, actions[0], id);
      hide Inv, Allowed, Apply;
      if Ends(actions[0], id) {
        FinishedNeverChanges(s', actions[1..], id);
      } else {
        FirstEndDecides(s', actions[1..], id);
      }
    }
  }

  /** What a running operation shows of its progress: the stage last reported, and the last byte counts. */
  function LastStage(stage: Stage, actions: seq<Action>, id: string): Stage
    decreases |actions|
  {
    if actions == [] then stage
    else
      var a := actions[0];
      LastStage(if a.Advance? && a.id == id && a.progress.UpdateStage? then a.progress.stage
                else if a.Advance? && a.id == id && a.progress.UpdateDownload? then Downloading
                else stage, actions[1..], id)
  }

  function LastDownload(bytes: (nat, Option<nat>), actions: seq<Action>, id: string): (nat, Option<nat>)
    decreases |actions|
  {
    if actions == [] then bytes
    else
      var a := actions[0];
      LastDownload(if a.Advance? && a.id == id && a.progress.UpdateDownload?
                   then (a.progress.downloaded, a.progress.total) else bytes, actions[1..], id)
  }

  lemma ProgressStep(s: Registry, a: Action, id: string)
    requires Inv(s) && Allowed(s, a) && id in s.ops && s.ops[id].status.state == Running && !Ends(a, id)
    ensures id in Apply(s, a).ops && Apply(s, a).ops[id].status.state == Running
    ensures Apply(s, a).ops[id].status.stage == LastStage(s.ops[id].status.stage, [a], id)
    ensures (Apply(s, a).ops[id].status.downloaded, Apply(s, a).ops[id].status.total)
            == LastDownload((s.ops[id].status.downloaded, s.ops[id].status.total), [a], id)
  {
    StepFollows(s, a, id);
    assert [a][1..] == [];
  }

  lemma {:induction false} LastReportShows(s: Registry, actions: seq<Action>, id: string)
    requires Inv(s) && IsRun(s, actions) && id in s.ops && s.ops[id].status.state == Running
    requires FirstEnd(actions, id).None?
    ensures var status := s.ops[id].status;
            && id in Run(s, actions).ops
            && var status' := Run(s, actions).ops[id].status;
            && status'.stage == LastStage(status.stage, actions, id)
            && (status'.downloaded, status'.total) == LastDownload((status.downloaded, status.total), actions, id)
    decreases |actions|
  {
    if actions != [] {
      StepKeepsInv(s, actions[0]);
      ProgressStep(s, actions[0], id);
      assert [actions[0]][1..] == [];
      hide Inv, Allowed, Apply;
      LastReportShows(Apply(s, actions[0]), actions[1..], id);
    }
  }

  // ------------------------------------------------------------ the code

  /** By completion time, as the library's sort. */
  predicate Sorted(ops: Ops, keys: seq<string>) {
    forall i, j :: 0 <= i < j < |keys| ==>
      keys[i] in ops && keys[j] in ops && CompletedBefore(ops[keys[i]], ops[keys[j]])
  }

  function Elements(s: seq<string>): set<string> {
    set x | x in s
  }

  lemma {:induction false} DistinctCount(s: seq<string>)
    requires Distinct(s)
    ensures |Elements(s)| == |s|
  {
    if s != [] {
      var front, x := s[..|s| - 1], s[|s| - 1];
      DistinctCount(front);
      assert s == front + [x];
      assert Elements(s) == Elements(front) + {x};
      assert x !in Elements(front);
    }
  }

  /** Puts a key in its place among sorted keys. */
  method InsertSorted(ops: Ops, keys: seq<string>, key: string) returns (r: seq<string>)
    requires key !in keys && key in ops && IsTerminal(ops[key]) && Sorted(ops, keys) && Distinct(keys)
    requires forall k :: k in keys ==> k in ops && IsTerminal(ops[k])
    ensures Sorted(ops, r) && Distinct(r) && forall k :: k in r <==> k in keys || k == key
  {
    var i := |keys|;
    while i > 0 && ops[keys[i - 1]].status.completedAt.value > ops[key].status.completedAt.value
      invariant 0 <= i <= |keys|
      invariant forall j :: i <= j < |keys| ==> CompletedBefore(ops[key], ops[keys[j]])
    {
      i := i - 1;
    }
    r := keys[..i] + [key] + keys[i..];
    forall j | 0 <= j < i
      ensures CompletedBefore(ops[keys[j]], ops[key])
    {
      assert j == i - 1 || CompletedBefore(ops[keys[j]], ops[keys[i - 1]]);
    }
    SortedWithOneMore(ops, keys, key, i);
    DistinctWithOneMore(keys, key, i);
  }

  lemma SortedWithOneMore(ops: Ops, keys: seq<string>, key: string, i: nat)
    requires i <= |keys| && Sorted(ops, keys) && key in ops && forall k :: k in keys ==> k in ops
    requires forall j :: 0 <= j < i ==> CompletedBefore(ops[keys[j]], ops[key])
    requires forall j :: i <= j < |keys| ==> CompletedBefore(ops[key], ops[keys[j]])
    ensures Sorted(ops, keys[..i] + [key] + keys[i..])
  {
  }

  lemma DistinctWithOneMore(keys: seq<string>, key: string, i: nat)
    requires i <= |keys| && Distinct(keys) && key !in keys
    ensures Distinct(keys[..i] + [key] + keys[i..])
    ensures forall k :: k in keys[..i] + [key] + keys[i..] <==> k in keys || k == key
  {
    var r := keys[..i] + [key] + keys[i..];
    assert r[i] == key && forall j :: 0 <= j < |keys| ==> keys[j] == if j < i then r[j] else r[j + 1];
  }

  /** The finished operations' keys, sorted by completion. */
  method TerminalKeys(ops: Ops) returns (keys: seq<string>)
    ensures Sorted(ops, keys) && Distinct(keys) && Elements(keys) == Terminals(ops)
  {
    keys := [];
    var left := Terminals(ops);
    while left != {}
      invariant left <= Terminals(ops) && Sorted(ops, keys) && Distinct(keys)
      invariant forall k :: k in keys <==> k in Terminals(ops) && k !in left
      decreases left
    {
      var key :| key in left;
      keys := InsertSorted(ops, keys, key);
      left := left - {key};
    }
  }

  class AgentOperations {
    var operations: Ops
    ghost var used: set<string>

    ghost function Model(): Registry
      reads this
    {
      Registry(operations, used)
    }

    ghost predicate Valid()
      reads this
    {
      Inv(Model())
    }

    constructor ()
      ensures Valid() && operations == map[] && used == {}
    {
      operations, used := map[], {};
    }

    /** Drops expired operations, then the oldest finished ones beyond the limit. */
    method PruneLocked(now: int)
      requires Valid()
      modifies `operations
      ensures Valid() && Pruned(old(operations), now, operations)
    {
      ghost var before := Model();
      var retained := Retained(operations, now);
      var keys := TerminalKeys(retained);
      DistinctCount(keys);
      var excess := if |keys| > MAX_TERMINAL_OPERATIONS then |keys| - MAX_TERMINAL_OPERATIONS else 0;
      var kept := retained;
      for i := 0 to excess
        invariant kept == retained - Elements(keys[..i])
      {
        assert Elements(keys[..i + 1]) == Elements(keys[..i]) + {keys[i]} by {
          assert keys[..i + 1] == keys[..i] + [keys[i]];
        }
        kept := kept - {keys[i]};
      }
      DroppingTheOldest(before.ops, now, keys, excess);
      operations := kept;
      PruneKeepsInv(before, now, kept);
    }

    /** Registers an operation under a fresh id, unless the agent has one running. */
    method RegisterOperation(id: string, agent: string, registry: string, now: int)
      returns (registered: bool, ghost kept: Ops)
      requires Valid() && id !in used
      modifies this
      ensures Valid() && Allowed(old(Model()), Register(id, agent, registry, now, kept))
      ensures Model() == Apply(old(Model()), Register(id, agent, registry, now, kept))
      ensures registered <==> forall other :: other in old(operations) && old(operations)[other].agent == agent ==>
                                old(operations)[other].status.state != Running
      ensures Pruned(old(operations), now, kept)
      ensures operations ==
                if registered
                then kept[id := Operation(agent, registry, now,
                                          Status(Running, Resolving, 0, None, None, None, None, None))]
                else kept
    {
      ghost var before := Model();
      PruneLocked(now);
      kept := operations;
      PruneKeepsInv(before, now, kept);
      StepKeepsInv(before, Register(id, agent, registry, now, kept));
      var busy := exists other ::
        other in operations && operations[other].agent == agent && operations[other].status.state.Running?;
      SameBusy(before, now, kept, agent);
      if busy {
        return false, kept;
      }
      operations := operations[id := Operation(agent, registry, now, NewStatus())];
      used := used + {id};
      return true, kept;
    }

    method AdvanceOperation(id: string, progress: Progress)
      requires Valid() && id in operations
      modifies `operations
      ensures Valid() && Model() == Apply(old(Model()), Advance(id, progress))
      ensures operations.Keys == old(operations).Keys
      ensures forall other :: other in old(operations) && other != id ==> operations[other] == old(operations)[other]
      ensures operations[id].agent == old(operations)[id].agent
              && operations[id].registry == old(operations)[id].registry
              && operations[id].startedAt == old(operations)[id].startedAt
      ensures var before, after := old(operations)[id].status, operations[id].status;
              && (before.state != Running ==> after == before)
              && (before.state == Running ==>
                    match progress
                    case UpdateStage(stage) => after == before.(stage := stage)
                    case UpdateDownload(downloaded, total) =>
                      after == before.(stage := Downloading, downloaded := downloaded, total := total)
                    case Succeed(updated, toVersion, at) =>
                      after == Status(Succeeded, Completed, before.downloaded, before.total, before.error, Some(at),
                                      updated, toVersion)
                    case Fail(error, at) =>
                      after == Status(Failed, StageFailed, before.downloaded, before.total, Some(error), Some(at),
                                      before.updated, before.toVersion))
    {
      StepKeepsInv(Model(), Advance(id, progress));
      var status := operations[id].status;
      if status.state != Running {
        return;
      }
      match progress {
        case UpdateStage(stage) => status := status.(stage := stage);
        case UpdateDownload(downloaded, total) =>
          status := status.(stage := Downloading, downloaded := downloaded, total := total);
        case Succeed(updated, toVersion, at) =>
          status := status.(state := Succeeded, stage := Completed, updated := updated, toVersion := toVersion,
                            completedAt := Some(at));
        case Fail(error, at) =>
          status := status.(state := Failed, stage := StageFailed, error := Some(error), completedAt := Some(at));
      }
      operations := operations[id := operations[id].(status := status)];
    }
  }

  /** Pruning never makes a busy agent free. */
  lemma SameBusy(s: Registry, now: int, kept: Ops, agent: string)
    requires Inv(s) && Pruned(s.ops, now, kept)
    ensures IsBusy(kept, agent) <==> IsBusy(s.ops, agent)
  {
    PruneKeepsInv(s, now, kept);
    hide Pruned, Inv;
    if IsBusy(s.ops, agent) {
      var id :| id in s.ops && s.ops[id].agent == agent && s.ops[id].status.state.Running?;
      assert id in kept && kept[id] == s.ops[id];
    }
  }

  lemma KeptTerminals(retained: Ops, keys: seq<string>, excess: nat)
    requires Distinct(keys) && Elements(keys) == Terminals(retained) && excess <= |keys|
    ensures Terminals(retained - Elements(keys[..excess])) == Elements(keys[excess..])
    ensures |Elements(keys[excess..])| == |keys| - excess && |Terminals(retained)| == |keys|
  {
    DistinctCount(keys);
    DistinctCount(keys[excess..]);
    KeptKeys(keys, excess);
    assert Terminals(retained - Elements(keys[..excess])) == Terminals(retained) - Elements(keys[..excess]);
  }

  lemma RunningKept(ops: Ops, now: int, keys: seq<string>, excess: nat, id: string)
    requires Elements(keys) == Terminals(Retained(ops, now)) && excess <= |keys|
    requires id in ops && !IsTerminal(ops[id])
    ensures id in Retained(ops, now) - Elements(keys[..excess])
  {
    assert id in Retained(ops, now) && id !in Terminals(Retained(ops, now)) && id !in Elements(keys);
    assert forall k :: k in keys[..excess] ==> k in keys;
  }

  lemma DroppingTheOldest(ops: Ops, now: int, keys: seq<string>, excess: nat)
    requires var retained := Retained(ops, now);
             && Sorted(retained, keys) && Distinct(keys) && Elements(keys) == Terminals(retained)
    requires excess == if |keys| > MAX_TERMINAL_OPERATIONS then |keys| - MAX_TERMINAL_OPERATIONS else 0
    ensures Pruned(ops, now, Retained(ops, now) - Elements(keys[..excess]))
  {
    var retained := Retained(ops, now);
    var kept := retained - Elements(keys[..excess]);
    KeptTerminals(retained, keys, excess);
    forall gone, id | gone in retained && gone !in kept && id in kept && IsTerminal(kept[id])
      ensures CompletedBefore(retained[gone], kept[id])
    {
      assert id in Terminals(kept);
      DroppedBeforeKept(retained, keys, excess, gone, id);
    }
    forall id | id in ops && !IsTerminal(ops[id])
      ensures id in kept
    {
      RunningKept(ops, now, keys, excess, id);
    }
    hide Retained, Sorted, Distinct, Elements, IsTerminal, CompletedBefore;
  }

  lemma DroppedBeforeKept(ops: Ops, keys: seq<string>, n: nat, gone: string, id: string)
    requires n <= |keys| && Sorted(ops, keys) && gone in keys[..n] && id in keys[n..]
    ensures gone in ops && id in ops && CompletedBefore(ops[gone], ops[id])
  {
    var i :| 0 <= i < n && keys[i] == gone;
    var j :| n <= j < |keys| && keys[j] == id;
  }

  lemma KeptKeys(keys: seq<string>, n: nat)
    requires n <= |keys| && Distinct(keys)
    ensures Elements(keys) - Elements(keys[..n]) == Elements(keys[n..])
  {
    assert keys == keys[..n] + keys[n..];
    forall x | x in Elements(keys[n..])
      ensures x !in Elements(keys[..n])
    {
      var j :| 0 <= j < |keys[n..]| && keys[n..][j] == x;
      assert keys[n + j] == x;
    }
  }
}
