/**
 The explicit refresh of one agent: any number of callers, one lock, and the last attempt's outcome
 reused by whoever asked before it completed.
 */
module SingleFlight {
  import opened Collections
  import D = DiscoveryCache

  /** A probe that answered but was superseded, or not saved, was `Skipped`. */
  datatype Outcome = Committed | Skipped | ProbeFailed(message: string)

  datatype Caller =
    | Waiting(asked: nat)
    | Holding(asked: nat)
    | Probing(asked: nat, startedAt: nat)
    | Answered(asked: nat, outcome: Outcome, source: nat)
    | Gone(asked: nat)

  datatype Probe = Probe(starter: nat, startedAt: nat, completedAt: nat, outcome: Outcome)

  datatype Refresh = Refresh(
    now: nat,
    lock: Option<nat>,
    last: Option<(nat, Outcome)>,
    callers: map<nat, Caller>,
    probes: seq<Probe>)

  /** A caller that vanishes drops the lock, and its probe with it. */
  datatype Action =
    | Tick
    | Ask(caller: nat)
    | TakeLock(caller: nat)
    | Decide(caller: nat)
    | Complete(caller: nat, outcome: Outcome)
    | Vanish(caller: nat)

  function Fresh(): Refresh {
    Refresh(0, None, None, map[], [])
  }

  predicate Is(s: Refresh, caller: nat, phase: Caller) {
    caller in s.callers && s.callers[caller] == phase
  }

  function LastProbe(probes: seq<Probe>): nat {
    if probes == [] then 0 else |probes| - 1
  }

  predicate Coalesces(s: Refresh, asked: nat) {
    s.last.Some? && s.last.value.0 >= asked
  }

  function Apply(s: Refresh, a: Action): Refresh {
    match a
    case Tick => s.(now := s.now + 1)
    case Ask(caller) => if caller in s.callers then s else s.(callers := s.callers[caller := Waiting(s.now)])
    case TakeLock(caller) =>
      if s.lock.None? && caller in s.callers && s.callers[caller].Waiting?
      then s.(lock := Some(caller), callers := s.callers[caller := Holding(s.callers[caller].asked)])
      else s
    case Decide(caller) =>
      if !(caller in s.callers && s.callers[caller].Holding?) then s
      else
        var asked := s.callers[caller].asked;
        if Coalesces(s, asked)
        then s.(lock := None, callers := s.callers[caller := Answered(asked, s.last.value.1, LastProbe(s.probes))])
        else s.(callers := s.callers[caller := Probing(asked, s.now)])
    case Complete(caller, outcome) =>
      if !(caller in s.callers && s.callers[caller].Probing?) then s
      else
        var c := s.callers[caller];
        s.(lock := None, last := Some((s.now, outcome)),
           callers := s.callers[caller := Answered(c.asked, outcome, |s.probes|)],
           probes := s.probes + [Probe(caller, c.startedAt, s.now, outcome)])
    case Vanish(caller) =>
      if caller in s.callers && !s.callers[caller].Answered?
      then s.(lock := if s.lock == Some(caller) then None else s.lock,
              callers := s.callers[caller := Gone(s.callers[caller].asked)])
      else s
  }

  function Run(s: Refresh, actions: seq<Action>): Refresh
    decreases |actions|
  {
    if actions == [] then s else Run(Apply(s, actions[0]), actions[1..])
  }

  // ------------------------------------------------------------ invariant

  /** The lock is held by exactly the caller that holds or probes, and the last attempt is the last probe. */
  ghost predicate LockInv(s: Refresh) {
    && (forall c :: c in s.callers && (s.callers[c].Holding? || s.callers[c].Probing?) ==> s.lock == Some(c))
    && (s.lock.Some? ==> s.lock.value in s.callers)
    && (s.last.Some? <==> s.probes != [])
    && (s.probes != [] ==> s.last.value == (s.probes[|s.probes| - 1].completedAt, s.probes[|s.probes| - 1].outcome))
  }

  /** Probes come one after another, each asked for strictly after every earlier one had completed. */
  ghost predicate ProbeInv(s: Refresh) {
    && (forall k :: 0 <= k < |s.probes| ==>
          s.probes[k].starter in s.callers && s.probes[k].startedAt <= s.probes[k].completedAt <= s.now)
    && (forall j, k :: 0 <= j < k < |s.probes| ==>
          s.probes[j].completedAt < s.callers[s.probes[k].starter].asked <= s.probes[k].startedAt)
  }

  /** Answers come from a probe that completed no earlier than the question. */
  predicate CallerInv(s: Refresh, c: Caller) {
    && c.asked <= s.now
    && (c.Probing? ==>
          c.asked <= c.startedAt <= s.now && (s.probes != [] ==> s.probes[|s.probes| - 1].completedAt < c.asked))
    && (c.Answered? ==>
          c.source < |s.probes| && s.probes[c.source].outcome == c.outcome
          && c.asked <= s.probes[c.source].completedAt)
  }

  ghost predicate Inv(s: Refresh) {
    LockInv(s) && ProbeInv(s) && forall c :: c in s.callers ==> CallerInv(s, s.callers[c])
  }

  lemma StepKeepsLock(s: Refresh, a: Action)
    requires Inv(s)
    ensures LockInv(Apply(s, a))
  {
  }

  lemma AskedStays(s: Refresh, a: Action, caller: nat)
    requires caller in s.callers
    ensures caller in Apply(s, a).callers && Apply(s, a).callers[caller].asked == s.callers[caller].asked
  {
  }

  lemma StepKeepsProbes(s: Refresh, a: Action)
    requires Inv(s)
    ensures ProbeInv(Apply(s, a))
  {
    var s' := Apply(s, a);
    forall c | c in s.callers
      ensures c in s'.callers && s'.callers[c].asked == s.callers[c].asked
    {
      AskedStays(s, a, c);
    }
    assert s.now <= s'.now;
    if a.Complete? && a.caller in s.callers && s.callers[a.caller].Probing? {
      var c := s.callers[a.caller];
      assert CallerInv(s, c);
      assert s'.probes == s.probes + [Probe(a.caller, c.startedAt, s.now, a.outcome)] && s'.now == s.now;
      hide Apply;
      OneMoreProbe(s, s', a.caller);
    } else {
      assert s'.probes == s.probes;
      hide Apply;
      SameProbes(s, s');
    }
  }

  lemma SameProbes(s: Refresh, s': Refresh)
    requires ProbeInv(s) && s'.probes == s.probes && s.now <= s'.now
    requires forall c :: c in s.callers ==> c in s'.callers && s'.callers[c].asked == s.callers[c].asked
    ensures ProbeInv(s')
  {
    forall j, k | 0 <= j < k < |s'.probes|
      ensures s'.probes[j].completedAt < s'.callers[s'.probes[k].starter].asked <= s'.probes[k].startedAt
    {
      assert s.probes[k].starter in s.callers;
    }
  }

  lemma OneMoreProbe(s: Refresh, s': Refresh, caller: nat)
    requires ProbeInv(s) && caller in s.callers && s.callers[caller].Probing? && CallerInv(s, s.callers[caller])
    requires forall c :: c in s.callers ==> c in s'.callers && s'.callers[c].asked == s.callers[c].asked
    requires exists outcome :: s'.probes == s.probes + [Probe(caller, s.callers[caller].startedAt, s.now, outcome)]
    requires s'.now == s.now
    ensures ProbeInv(s')
  {
    var n := |s.probes|;
    forall j, k | 0 <= j < k < |s'.probes|
      ensures s'.probes[j].completedAt < s'.callers[s'.probes[k].starter].asked <= s'.probes[k].startedAt
    {
      if k == n {
        LaterCompletesLater(s, j, n - 1);
      } else {
        assert s'.probes[j] == s.probes[j] && s'.probes[k] == s.probes[k];
      }
    }
  }

  lemma LaterCompletesLater(s: Refresh, j: nat, k: nat)
    requires ProbeInv(s) && j <= k < |s.probes|
    ensures s.probes[j].completedAt <= s.probes[k].completedAt
  {
  }

  lemma StepKeepsCaller(s: Refresh, a: Action, c: nat)
    requires Inv(s) && c in Apply(s, a).callers
    ensures CallerInv(Apply(s, a), Apply(s, a).callers[c])
  {
    hide ProbeInv;
    if c in s.callers {
      assert CallerInv(s, s.callers[c]);
    }
  }

  lemma StepKeepsCallers(s: Refresh, a: Action)
    requires Inv(s)
    ensures forall c :: c in Apply(s, a).callers ==> CallerInv(Apply(s, a), Apply(s, a).callers[c])
  {
    forall c | c in Apply(s, a).callers
      ensures CallerInv(Apply(s, a), Apply(s, a).callers[c])
    {
      StepKeepsCaller(s, a, c);
    }
  }

  lemma StepKeepsInv(s: Refresh, a: Action)
    requires Inv(s)
    ensures Inv(Apply(s, a))
  {
    StepKeepsLock(s, a);
    StepKeepsProbes(s, a);
    StepKeepsCallers(s, a);
    hide LockInv, ProbeInv, CallerInv, Apply;
  }

  lemma {:induction false} RunKeepsInv(s: Refresh, actions: seq<Action>)
    requires Inv(s)
    ensures Inv(Run(s, actions))
    decreases |actions|
  {
    hide Inv, Apply;
    if actions != [] {
      StepKeepsInv(s, actions[0]);
      RunKeepsInv(Apply(s, actions[0]), actions[1..]);
    }
  }

  // ------------------------------------------------------------ results over every run

  /** In every run two probes never overlap, the one under way included. */
  lemma ProbesNeverOverlap(actions: seq<Action>)
    ensures var s := Run(Fresh(), actions);
            && (forall j, k :: 0 <= j < k < |s.probes| ==> s.probes[j].completedAt < s.probes[k].startedAt)
            && (forall c, d :: c in s.callers && d in s.callers && s.callers[c].Probing? && s.callers[d].Probing? ==>
                  c == d)
            && (forall c, k :: c in s.callers && s.callers[c].Probing? && 0 <= k < |s.probes| ==>
                  s.probes[k].completedAt < s.callers[c].startedAt)
  {
    RunKeepsInv(Fresh(), actions);
    var s := Run(Fresh(), actions);
    hide Run;
    forall c, k | c in s.callers && s.callers[c].Probing? && 0 <= k < |s.probes|
      ensures s.probes[k].completedAt < s.callers[c].startedAt
    {
      RunningProbeIsLast(s, c, k);
    }
    assert forall c :: c in s.callers && s.callers[c].Probing? ==> s.lock == Some(c);
    hide LockInv;
    forall j, k | 0 <= j < k < |s.probes|
      ensures s.probes[j].completedAt < s.probes[k].startedAt
    {
    }
  }

  lemma RunningProbeIsLast(s: Refresh, c: nat, k: nat)
    requires Inv(s) && c in s.callers && s.callers[c].Probing? && k < |s.probes|
    ensures s.probes[k].completedAt < s.callers[c].startedAt
  {
    assert CallerInv(s, s.callers[c]);
    LaterCompletesLater(s, k, |s.probes| - 1);
  }

  /** In every run an answered caller has the outcome of a probe that completed at or after its request. */
  lemma AnswersAreRecentEnough(actions: seq<Action>, caller: nat)
    requires caller in Run(Fresh(), actions).callers && Run(Fresh(), actions).callers[caller].Answered?
    ensures var s := Run(Fresh(), actions);
            var c := s.callers[caller];
            c.source < |s.probes| && s.probes[c.source].outcome == c.outcome
              && c.asked <= s.probes[c.source].completedAt
  {
    RunKeepsInv(Fresh(), actions);
    assert CallerInv(Run(Fresh(), actions), Run(Fresh(), actions).callers[caller]);
  }

  /** In every run, when everyone asked no later than the first probe completed, there is only that
      probe, whether it succeeded or failed, and everyone answered has its outcome. */
  lemma EarlyCallersShareOneProbe(actions: seq<Action>)
    requires var s := Run(Fresh(), actions);
             s.probes != [] && forall c :: c in s.callers ==> s.callers[c].asked <= s.probes[0].completedAt
    ensures var s := Run(Fresh(), actions);
            && |s.probes| == 1
            && (forall c :: c in s.callers ==> !s.callers[c].Probing?)
            && (forall c :: c in s.callers && s.callers[c].Answered? ==> s.callers[c].outcome == s.probes[0].outcome)
  {
    RunKeepsInv(Fresh(), actions);
    var s := Run(Fresh(), actions);
    hide Run;
    forall c | c in s.callers
      ensures !s.callers[c].Probing? && (s.callers[c].Answered? ==> s.callers[c].outcome == s.probes[0].outcome)
    {
      assert CallerInv(s, s.callers[c]);
    }
  }

  /** A caller starts a probe exactly when it asked after every completed one. */
  lemma ProbesExactlyWhenNeeded(actions: seq<Action>, caller: nat)
    requires caller in Run(Fresh(), actions).callers && Run(Fresh(), actions).callers[caller].Holding?
    ensures var s := Run(Fresh(), actions);
            Apply(s, Decide(caller)).callers[caller].Probing? <==>
              forall k :: 0 <= k < |s.probes| ==> s.probes[k].completedAt < s.callers[caller].asked
  {
    RunKeepsInv(Fresh(), actions);
    var s := Run(Fresh(), actions);
    hide Run;
    forall k | 0 <= k < |s.probes|
      ensures s.probes[k].completedAt <= s.last.value.0
    {
      LaterCompletesLater(s, k, |s.probes| - 1);
    }
    if s.probes != [] {
      assert s.probes[|s.probes| - 1].completedAt == s.last.value.0;
    }
  }

  /** The label of a refresh answer. */
  function Label(row: Option<D.Row>, outcome: Outcome, now: nat): D.Freshness {
    D.DiscoveryFreshness(row, outcome == Committed, now)
  }

  /** In every run of the cache: a refresh is labelled fresh exactly for a committed outcome over a checked
      row, whatever marks came since the commit; so a fresh label is right about the row exactly when no
      invalidation was stamped after its writer's check. */
  lemma FreshLabelIsRightExactly(row: Option<D.Row>, actions: seq<D.Action>, outcome: Outcome, now: nat)
    ensures var s := D.Run(D.Fresh(row), actions);
            && (Label(s.row, outcome, now) == D.UpToDateNow <==> outcome.Committed? && D.Checked(s.row))
            && (Label(s.row, outcome, now) == D.UpToDateNow ==>
                  s.writer.Some? && (D.Current(s) <==> s.writer.value.seen == s.stamps))
  {
    D.RunKeepsInv(D.Fresh(row), actions);
    var s := D.Run(D.Fresh(row), actions);
    assert s.writer.Some? ==> D.WriterInv(s, s.writer.value);
  }

  /** An invalidation between the commit and the answer: fresh to the caller, stale to the next reader. */
  lemma FreshOverAStaleRow(d: D.Discovery)
    ensures var actions := [D.StartProbe(1), D.CheckAndSave(1, d, true), D.StampAndMark(D.MarkStale, true)];
            var s := D.Run(D.Fresh(None), actions);
            && Label(s.row, Committed, s.now) == D.UpToDateNow && !D.Current(s)
            && D.DiscoveryFreshness(s.row, false, s.now) == D.Stale
  {
    var a, b, c := D.StartProbe(1), D.CheckAndSave(1, d, true), D.StampAndMark(D.MarkStale, true);
    var s1 := D.Apply(D.Fresh(None), a);
    var s2 := D.Apply(s1, b);
    assert s2.row == Some(D.SaveRow(None, d, 0)) && s2.writer == Some(D.Writer(0, 0, false, false));
    var s3 := D.Apply(s2, c);
    assert [a, b, c][1..] == [b, c] && [b, c][1..] == [c] && [c][1..] == [];
    assert D.Run(D.Fresh(None), [a, b, c]) == D.Run(s1, [b, c]) == D.Run(s2, [c]) == D.Run(s3, []);
  }

  // ------------------------------------------------------------ the code

  class AgentRefresh {
    var now: nat
    var lastAttempt: Option<(nat, Outcome)>
    ghost var lock: Option<nat>
    ghost var callers: map<nat, Caller>
    ghost var probes: seq<Probe>

    ghost function Model(): Refresh
      reads this
    {
      Refresh(now, lock, lastAttempt, callers, probes)
    }

    ghost predicate Valid()
      reads this
    {
      Inv(Model())
    }

    constructor ()
      ensures Valid() && Model() == Fresh()
    {
      now, lastAttempt, lock, callers, probes := 0, None, None, map[], [];
    }

    /** Asks, then takes the free lock. */
    method Begin(ghost caller: nat) returns (requestedAt: nat)
      requires Valid() && lock == None && caller !in callers
      modifies `lock, `callers
      ensures Valid() && requestedAt == now && lock == Some(caller) && Is(Model(), caller, Holding(now))
    {
      hide Inv;
      StepKeepsInv(Model(), Ask(caller));
      requestedAt := now;
      callers := callers[caller := Waiting(now)];
      StepKeepsInv(Model(), TakeLock(caller));
      lock, callers := Some(caller), callers[caller := Holding(requestedAt)];
    }

    method Reuse(ghost caller: nat, requestedAt: nat) returns (answer: Outcome)
      requires Valid() && Is(Model(), caller, Holding(requestedAt)) && Coalesces(Model(), requestedAt)
      modifies `lock, `callers
      ensures Valid() && lock == None && Is(Model(), caller, Answered(requestedAt, answer, LastProbe(probes)))
      ensures answer == lastAttempt.value.1
    {
      hide Inv;
      StepKeepsInv(Model(), Decide(caller));
      callers := callers[caller := Answered(requestedAt, lastAttempt.value.1, LastProbe(probes))];
      lock := None;
      return lastAttempt.value.1;
    }

    method Record(ghost caller: nat, ghost requestedAt: nat, ghost startedAt: nat, outcome: Outcome)
      requires Valid() && Is(Model(), caller, Probing(requestedAt, startedAt))
      modifies `lock, `callers, `lastAttempt, `probes
      ensures Valid() && lock == None && Is(Model(), caller, Answered(requestedAt, outcome, |old(probes)|))
      ensures probes == old(probes) + [Probe(caller, startedAt, now, outcome)] && lastAttempt == Some((now, outcome))
    {
      hide Inv;
      StepKeepsInv(Model(), Complete(caller, outcome));
      callers := callers[caller := Answered(requestedAt, outcome, |probes|)];
      lastAttempt := Some((now, outcome));
      probes := probes + [Probe(caller, startedAt, now, outcome)];
      lock := None;
    }

    /** A refresh that finds the lock free and is left alone: the last attempt's outcome if that is
        recent enough, and otherwise `outcome` of a probe that takes `duration`. */
    method RefreshNow(ghost caller: nat, outcome: Outcome, duration: nat) returns (answer: Outcome)
      requires Valid() && lock == None && caller !in callers
      modifies this
      ensures Valid() && lock == None
      ensures old(lastAttempt).Some? && old(lastAttempt).value.0 >= old(now) ==>
                answer == old(lastAttempt).value.1 && probes == old(probes) && lastAttempt == old(lastAttempt)
      ensures !(old(lastAttempt).Some? && old(lastAttempt).value.0 >= old(now)) ==>
                answer == outcome && probes == old(probes) + [Probe(caller, old(now), now, outcome)]
                && now == old(now) + duration && lastAttempt == Some((now, outcome))
    {
      hide Inv;
      var requestedAt := Begin(caller);
      if lastAttempt.Some? && lastAttempt.value.0 >= requestedAt {
        answer := Reuse(caller, requestedAt);
        return;
      }
      StepKeepsInv(Model(), Decide(caller));
      callers := callers[caller := Probing(requestedAt, now)];
      Elapse(duration);
      Record(caller, requestedAt, requestedAt, outcome);
      return outcome;
    }

    method Elapse(duration: nat)
      requires Valid()
      modifies `now
      ensures Valid() && now == old(now) + duration
    {
      hide Inv;
      for i := 0 to duration
        invariant Valid() && now == old(now) + i
      {
        StepKeepsInv(Model(), Tick);
        now := now + 1;
      }
    }
  }
}
