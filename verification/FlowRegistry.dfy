/**
 The registries of live sign-in flows, terminal and protocol alike: a start checks the bounds under
 one lock hold and inserts the flow under another.
 */
module FlowRegistry {
  import opened Collections

  const MAX_ACTIVE_FLOWS: nat := 4
  const MAX_ACTIVE_FLOWS_PER_AGENT: nat := 1
  /** Two minutes, in milliseconds. */
  const FINISHED_RETENTION: int := 120_000

  datatype Flow = Flow(agent: string, completedAt: Option<int>)

  /** `starting` holds the starts past their check, by starter, with their agent. */
  datatype Registry = Registry(flows: map<string, Flow>, starting: map<nat, string>)

  const EMPTY := Registry(map[], map[])

  datatype Action =
    | Check(starter: nat, agent: string)
    | Insert(starter: nat, id: string)
    | GiveUp(starter: nat)
    | Finish(id: string, at: int)
    | Prune(now: int)
    | ShutDown

  function Active(flows: map<string, Flow>): set<string> {
    set id | id in flows && flows[id].completedAt.None?
  }

  function ActiveFor(flows: map<string, Flow>, agent: string): set<string> {
    set id | id in flows && flows[id].completedAt.None? && flows[id].agent == agent
  }

  function StartingFor(starting: map<nat, string>, agent: string): set<nat> {
    set starter | starter in starting && starting[starter] == agent
  }

  predicate WithinBounds(flows: map<string, Flow>, agent: string) {
    |Active(flows)| < MAX_ACTIVE_FLOWS && |ActiveFor(flows, agent)| < MAX_ACTIVE_FLOWS_PER_AGENT
  }

  /** A finish time in the future counts as fresh. */
  predicate Forgotten(flow: Flow, now: int) {
    flow.completedAt.Some? && now - flow.completedAt.value >= FINISHED_RETENTION
  }

  function Remembered(flows: map<string, Flow>, now: int): map<string, Flow> {
    map id | id in flows && !Forgotten(flows[id], now) :: flows[id]
  }

  /** A step whose guard fails leaves the state as it is. Flow ids are fresh. */
  function Apply(s: Registry, a: Action): Registry {
    match a
    case Check(starter, agent) =>
      if starter !in s.starting && WithinBounds(s.flows, agent) then s.(starting := s.starting[starter := agent]) else s
    case Insert(starter, id) =>
      if starter in s.starting && id !in s.flows
      then Registry(s.flows[id := Flow(s.starting[starter], None)], s.starting - {starter})
      else s
    case GiveUp(starter) => s.(starting := s.starting - {starter})
    case Finish(id, at) =>
      if id in s.flows && s.flows[id].completedAt.None?
      then s.(flows := s.flows[id := s.flows[id].(completedAt := Some(at))])
      else s
    case Prune(now) => s.(flows := Remembered(s.flows, now))
    case ShutDown => s.(flows := map[])
  }

  function Run(s: Registry, actions: seq<Action>): Registry
    decreases |actions|
  {
    if actions == [] then s else Run(Apply(s, actions[0]), actions[1..])
  }

  /** At every point of the run at most `k` starts are past their check and not yet inserted. */
  predicate AtMostStarting(s: Registry, actions: seq<Action>, k: nat)
    decreases |actions|
  {
    |s.starting| <= k && (actions == [] || AtMostStarting(Apply(s, actions[0]), actions[1..], k))
  }

  /** With `k` overlapping starts the bounds can be passed by `k - 1`. */
  ghost predicate Bounded(s: Registry, k: nat) {
    && |Active(s.flows)| + |s.starting| < MAX_ACTIVE_FLOWS + k
    && forall agent :: |ActiveFor(s.flows, agent)| + |StartingFor(s.starting, agent)| < MAX_ACTIVE_FLOWS_PER_AGENT + k
  }

  // ------------------------------------------------------------ counting

  lemma {:induction false} SubsetCount<T>(a: set<T>, b: set<T>)
    requires a <= b
    ensures |a| <= |b|
    decreases |a|
  {
    if a != {} {
      var x :| x in a;
      SubsetCount(a - {x}, b - {x});
    }
  }

  lemma StartingForCount(starting: map<nat, string>, agent: string)
    ensures |StartingFor(starting, agent)| <= |starting|
  {
    SubsetCount(StartingFor(starting, agent), starting.Keys);
    assert |starting.Keys| == |starting|;
  }

  lemma CheckKeepsBounds(s: Registry, starter: nat, agent: string, k: nat)
    requires Bounded(s, k) && |Apply(s, Check(starter, agent)).starting| <= k
    ensures Bounded(Apply(s, Check(starter, agent)), k)
  {
    var s' := Apply(s, Check(starter, agent));
    if s' != s {
      assert |s'.starting| == |s.starting| + 1;
      forall other
        ensures |ActiveFor(s'.flows, other)| + |StartingFor(s'.starting, other)| < MAX_ACTIVE_FLOWS_PER_AGENT + k
      {
        if other == agent {
          StartingForCount(s'.starting, agent);
        } else {
          assert StartingFor(s'.starting, other) == StartingFor(s.starting, other);
        }
      }
    }
  }

  lemma InsertActive(flows: map<string, Flow>, id: string, agent: string)
    requires id !in flows
    ensures Active(flows[id := Flow(agent, None)]) == Active(flows) + {id} && id !in Active(flows)
  {
  }

  lemma InsertActiveFor(flows: map<string, Flow>, id: string, agent: string, other: string)
    requires id !in flows
    ensures ActiveFor(flows[id := Flow(agent, None)], other)
            == ActiveFor(flows, other) + (if other == agent then {id} else {})
    ensures id !in ActiveFor(flows, other)
  {
  }

  lemma InsertCounts(flows: map<string, Flow>, id: string, agent: string, other: string)
    requires id !in flows
    ensures |Active(flows[id := Flow(agent, None)])| == |Active(flows)| + 1
    ensures |ActiveFor(flows[id := Flow(agent, None)], other)|
            == |ActiveFor(flows, other)| + if other == agent then 1 else 0
  {
    hide *;
    InsertActive(flows, id, agent);
    InsertActiveFor(flows, id, agent, other);
  }

  lemma StartedCounts(starting: map<nat, string>, starter: nat, other: string)
    requires starter in starting
    ensures |starting - {starter}| == |starting| - 1
    ensures |StartingFor(starting - {starter}, other)|
            == |StartingFor(starting, other)| - if other == starting[starter] then 1 else 0
  {
    SmallerMap(starting, starter);
    if other == starting[starter] {
      assert StartingFor(starting, other) == StartingFor(starting - {starter}, other) + {starter};
    } else {
      assert StartingFor(starting - {starter}, other) == StartingFor(starting, other);
    }
  }

  lemma InsertKeepsBounds(s: Registry, starter: nat, id: string, k: nat)
    requires Bounded(s, k) && starter in s.starting && id !in s.flows
    ensures Bounded(Apply(s, Insert(starter, id)), k)
  {
    var s' := Apply(s, Insert(starter, id));
    var agent := s.starting[starter];
    assert s' == Registry(s.flows[id := Flow(agent, None)], s.starting - {starter});
    InsertCounts(s.flows, id, agent, agent);
    StartedCounts(s.starting, starter, agent);
    hide Active, ActiveFor, StartingFor, Apply;
    forall other
      ensures |ActiveFor(s'.flows, other)| + |StartingFor(s'.starting, other)| < MAX_ACTIVE_FLOWS_PER_AGENT + k
    {
      InsertCounts(s.flows, id, agent, other);
      StartedCounts(s.starting, starter, other);
    }
  }

  /** Every other step only takes away. */
  lemma TakingAwayKeepsBounds(s: Registry, s': Registry, k: nat)
    requires Bounded(s, k)
    requires s'.starting.Keys <= s.starting.Keys && (forall c :: c in s'.starting ==> s'.starting[c] == s.starting[c])
    requires forall id :: id in s'.flows && s'.flows[id].completedAt.None? ==>
               id in s.flows && s.flows[id] == s'.flows[id]
    ensures Bounded(s', k)
  {
    SubsetCount(Active(s'.flows), Active(s.flows));
    SubsetCount(s'.starting.Keys, s.starting.Keys);
    assert |s'.starting.Keys| == |s'.starting| && |s.starting.Keys| == |s.starting|;
    forall agent
      ensures |ActiveFor(s'.flows, agent)| + |StartingFor(s'.starting, agent)| < MAX_ACTIVE_FLOWS_PER_AGENT + k
    {
      SubsetCount(ActiveFor(s'.flows, agent), ActiveFor(s.flows, agent));
      SubsetCount(StartingFor(s'.starting, agent), StartingFor(s.starting, agent));
    }
  }

  lemma StepKeepsBounds(s: Registry, a: Action, k: nat)
    requires Bounded(s, k) && |Apply(s, a).starting| <= k
    ensures Bounded(Apply(s, a), k)
  {
    match a
    case Check(starter, agent) => CheckKeepsBounds(s, starter, agent, k);
    case Insert(starter, id) => if starter in s.starting && id !in s.flows { InsertKeepsBounds(s, starter, id, k); }
    case _ =>
      OtherStepsTakeAway(s, a);
      hide *;
      TakingAwayKeepsBounds(s, Apply(s, a), k);
  }

  lemma OtherStepsTakeAway(s: Registry, a: Action)
    requires !a.Check? && !a.Insert?
    ensures var s' := Apply(s, a);
            && s'.starting.Keys <= s.starting.Keys && (forall c :: c in s'.starting ==> s'.starting[c] == s.starting[c])
            && forall id :: id in s'.flows && s'.flows[id].completedAt.None? ==>
                 id in s.flows && s.flows[id] == s'.flows[id]
  {
  }

  /** In every run in which at most `k` starts overlap, there are fewer than the limit plus `k` active
      flows, over all agents and for each. */
  lemma {:induction false} OverlapLoosensTheBounds(s: Registry, actions: seq<Action>, k: nat)
    requires Bounded(s, k) && AtMostStarting(s, actions, k)
    ensures Bounded(Run(s, actions), k)
    decreases |actions|
  {
    hide Bounded, Apply;
    if actions != [] {
      assert |Apply(s, actions[0]).starting| <= k;
      StepKeepsBounds(s, actions[0], k);
      OverlapLoosensTheBounds(Apply(s, actions[0]), actions[1..], k);
    }
  }

  /** When starts do not overlap, the registry's limits hold throughout. */
  lemma SerialStartsKeepTheLimits(actions: seq<Action>, agent: string)
    requires AtMostStarting(EMPTY, actions, 1)
    ensures |Active(Run(EMPTY, actions).flows)| <= MAX_ACTIVE_FLOWS
    ensures |ActiveFor(Run(EMPTY, actions).flows, agent)| <= MAX_ACTIVE_FLOWS_PER_AGENT
  {
    var s := EMPTY;
    assert Active(s.flows) == {} && forall a :: ActiveFor(s.flows, a) == {} && StartingFor(s.starting, a) == {};
    OverlapLoosensTheBounds(s, actions, 1);
  }

  // ------------------------------------------------------------ how far overlapping starts go

  /** Starters 0, 1, 2, ... check for these agents, one after the other. */
  function Checks(agents: seq<string>, from: nat): seq<Action>
    requires from <= |agents|
    decreases |agents| - from
  {
    if from == |agents| then [] else [Check(from, agents[from])] + Checks(agents, from + 1)
  }

  /** Then they insert. */
  function Inserts(ids: seq<string>, from: nat): seq<Action>
    requires from <= |ids|
    decreases |ids| - from
  {
    if from == |ids| then [] else [Insert(from, ids[from])] + Inserts(ids, from + 1)
  }

  function Started(agents: seq<string>, from: nat, until: nat): map<nat, string>
    requires from <= until <= |agents|
  {
    map i: nat | from <= i < until :: agents[i]
  }

  lemma StartedCount(agents: seq<string>, from: nat, until: nat)
    requires from <= until <= |agents|
    ensures |Started(agents, from, until)| == until - from
    decreases until
  {
    if from == until {
      assert Started(agents, from, until) == map[];
    } else {
      StartedCount(agents, from, until - 1);
      assert Started(agents, from, until) == Started(agents, from, until - 1)[until - 1 := agents[until - 1]];
    }
  }

  lemma RunOne(s: Registry, a: Action, rest: seq<Action>, k: nat)
    ensures Run(s, [a] + rest) == Run(Apply(s, a), rest)
    ensures AtMostStarting(s, [a] + rest, k) <==> |s.starting| <= k && AtMostStarting(Apply(s, a), rest, k)
  {
    assert ([a] + rest)[1..] == rest;
  }

  lemma {:induction false} RunBoth(s: Registry, a: seq<Action>, b: seq<Action>, k: nat)
    ensures Run(s, a + b) == Run(Run(s, a), b)
    ensures AtMostStarting(s, a, k) && AtMostStarting(Run(s, a), b, k) ==> AtMostStarting(s, a + b, k)
    decreases |a|
  {
    if a == [] {
      assert a + b == b;
    } else {
      assert a == [a[0]] + a[1..] && a + b == [a[0]] + (a[1..] + b);
      RunOne(s, a[0], a[1..], k);
      RunOne(s, a[0], a[1..] + b, k);
      RunBoth(Apply(s, a[0]), a[1..], b, k);
    }
  }

  /** Checks that all see the same flows all pass. */
  lemma {:induction false} ChecksPass(flows: map<string, Flow>, agents: seq<string>, from: nat)
    requires from <= |agents| && forall agent :: agent in agents ==> WithinBounds(flows, agent)
    ensures var s := Registry(flows, Started(agents, 0, from));
            && Run(s, Checks(agents, from)) == Registry(flows, Started(agents, 0, |agents|))
            && AtMostStarting(s, Checks(agents, from), |agents|)
    decreases |agents| - from
  {
    var s := Registry(flows, Started(agents, 0, from));
    StartedCount(agents, 0, from);
    if from < |agents| {
      var a := Check(from, agents[from]);
      assert agents[from] in agents;
      assert Started(agents, 0, from + 1) == Started(agents, 0, from)[from := agents[from]];
      assert Apply(s, a) == Registry(flows, Started(agents, 0, from + 1));
      RunOne(s, a, Checks(agents, from + 1), |agents|);
      ChecksPass(flows, agents, from + 1);
    }
  }

  /** The flows once the first `n` starters have inserted. */
  function Inserted(flows: map<string, Flow>, agents: seq<string>, ids: seq<string>, n: nat): map<string, Flow>
    requires n <= |agents| == |ids|
  {
    if n == 0 then flows else Inserted(flows, agents, ids, n - 1)[ids[n - 1] := Flow(agents[n - 1], None)]
  }

  lemma {:induction false} InsertedIds(flows: map<string, Flow>, agents: seq<string>, ids: seq<string>, n: nat)
    requires n <= |agents| == |ids|
    ensures forall id :: id in Inserted(flows, agents, ids, n) <==> id in flows || id in ids[..n]
  {
    if n > 0 {
      InsertedIds(flows, agents, ids, n - 1);
      assert ids[..n] == ids[..n - 1] + [ids[n - 1]];
    }
  }

  ghost predicate FreshIds(flows: map<string, Flow>, ids: seq<string>) {
    Distinct(ids) && forall id :: id in ids ==> id !in flows
  }

  lemma NextIdIsFresh(flows: map<string, Flow>, agents: seq<string>, ids: seq<string>, n: nat)
    requires n < |agents| == |ids| && FreshIds(flows, ids)
    ensures ids[n] !in Inserted(flows, agents, ids, n)
  {
    InsertedIds(flows, agents, ids, n);
    assert ids[n] in ids;
  }

  lemma OneInsertLands(flows: map<string, Flow>, agents: seq<string>, ids: seq<string>, i: nat)
    requires i < |agents| == |ids| && ids[i] !in Inserted(flows, agents, ids, i)
    ensures Apply(Registry(Inserted(flows, agents, ids, i), Started(agents, i, |agents|)), Insert(i, ids[i]))
            == Registry(Inserted(flows, agents, ids, i + 1), Started(agents, i + 1, |agents|))
  {
    assert Started(agents, i + 1, |agents|) == Started(agents, i, |agents|) - {i};
  }

  lemma {:induction false} InsertsLand(flows: map<string, Flow>, agents: seq<string>, ids: seq<string>, from: nat)
    requires from <= |agents| == |ids| && FreshIds(flows, ids)
    ensures var s := Registry(Inserted(flows, agents, ids, from), Started(agents, from, |agents|));
            && Run(s, Inserts(ids, from)) == Registry(Inserted(flows, agents, ids, |ids|), map[])
            && AtMostStarting(s, Inserts(ids, from), |agents|)
    decreases |agents| - from
  {
    hide Inserted, Started, FreshIds, Apply;
    var s := Registry(Inserted(flows, agents, ids, from), Started(agents, from, |agents|));
    StartedCount(agents, from, |agents|);
    if from < |agents| {
      NextIdIsFresh(flows, agents, ids, from);
      OneInsertLands(flows, agents, ids, from);
      RunOne(s, Insert(from, ids[from]), Inserts(ids, from + 1), |agents|);
      InsertsLand(flows, agents, ids, from + 1);
    } else {
      assert |s.starting| == 0 && s.starting == map[];
    }
  }

  lemma {:induction false} InsertedCounts(flows: map<string, Flow>, agents: seq<string>, ids: seq<string>, n: nat,
                                          agent: string)
    requires n <= |agents| == |ids| && FreshIds(flows, ids)
    ensures |Active(Inserted(flows, agents, ids, n))| == |Active(flows)| + n
    ensures (forall i :: 0 <= i < n ==> agents[i] == agent) ==>
              |ActiveFor(Inserted(flows, agents, ids, n), agent)| == |ActiveFor(flows, agent)| + n
    ensures agent !in agents[..n] ==> |ActiveFor(Inserted(flows, agents, ids, n), agent)| == |ActiveFor(flows, agent)|
  {
    if n > 0 {
      InsertedCounts(flows, agents, ids, n - 1, agent);
      NextIdIsFresh(flows, agents, ids, n - 1);
      InsertCounts(Inserted(flows, agents, ids, n - 1), ids[n - 1], agents[n - 1], agent);
      assert agents[..n] == agents[..n - 1] + [agents[n - 1]];
    }
  }

  /** All check, then all insert. */
  function Together(agents: seq<string>, ids: seq<string>): seq<Action> {
    Checks(agents, 0) + Inserts(ids, 0)
  }

  /** Any number of starts within bounds, overlapping, all land. */
  lemma TogetherAllLand(flows: map<string, Flow>, agents: seq<string>, ids: seq<string>)
    requires |agents| == |ids| && FreshIds(flows, ids) && forall agent :: agent in agents ==> WithinBounds(flows, agent)
    ensures var s := Registry(flows, map[]);
            && Run(s, Together(agents, ids)) == Registry(Inserted(flows, agents, ids, |ids|), map[])
            && AtMostStarting(s, Together(agents, ids), |agents|)
  {
    var s := Registry(flows, map[]);
    assert Started(agents, 0, 0) == map[];
    ChecksPass(flows, agents, 0);
    InsertsLand(flows, agents, ids, 0);
    RunBoth(s, Checks(agents, 0), Inserts(ids, 0), |agents|);
  }

  /** Names told apart by their length. */
  function Name(i: nat): (name: string)
    ensures |name| == i
  {
    if i == 0 then "" else Name(i - 1) + "n"
  }

  function Names(from: nat, n: nat): (names: seq<string>)
    ensures |names| == n && forall i :: 0 <= i < n ==> names[i] == Name(from + i) && |names[i]| == from + i
  {
    if n == 0 then [] else Names(from, n - 1) + [Name(from + n - 1)]
  }

  lemma NamesAreDistinct(from: nat, n: nat)
    ensures Distinct(Names(from, n))
  {
  }

  /** With `k` overlapping starts one agent gets `k` flows. */
  lemma OverlapReachesTheAgentBound(agent: string, k: nat)
    ensures exists actions :: AtMostStarting(EMPTY, actions, k)
                              && |ActiveFor(Run(EMPTY, actions).flows, agent)| == MAX_ACTIVE_FLOWS_PER_AGENT + k - 1
  {
    var agents, ids := seq(k, _ => agent), Names(0, k);
    NamesAreDistinct(0, k);
    assert Active(map[]) == {} && ActiveFor(map[], agent) == {};
    TogetherAllLand(map[], agents, ids);
    InsertedCounts(map[], agents, ids, k, agent);
    assert AtMostStarting(EMPTY, Together(agents, ids), k);
  }

  /** One start alone. */
  function Alone(i: nat): seq<Action> {
    Together([Name(i)], [Name(i)])
  }

  function OneByOne(n: nat): seq<Action> {
    if n == 0 then [] else OneByOne(n - 1) + Alone(n - 1)
  }

  function Lone(n: nat): map<string, Flow> {
    Inserted(map[], Names(0, n), Names(0, n), n)
  }

  lemma {:induction false} LoneGrows(n: nat, m: nat)
    requires m <= n
    ensures Inserted(map[], Names(0, n), Names(0, n), m) == Lone(m)
  {
    if m > 0 {
      LoneGrows(n, m - 1);
      LoneGrows(m, m - 1);
    }
  }

  lemma LoneFlows(n: nat)
    ensures |Active(Lone(n))| == n
    ensures forall name :: |name| >= n ==> name !in Lone(n) && ActiveFor(Lone(n), name) == {}
  {
    var names := Names(0, n);
    NamesAreDistinct(0, n);
    InsertedIds(map[], names, names, n);
    assert Active(map[]) == {};
    InsertedCounts(map[], names, names, n, "");
    forall name | |name| >= n
      ensures name !in Lone(n) && ActiveFor(Lone(n), name) == {}
    {
      assert forall i :: 0 <= i < n ==> |names[i]| < n;
      assert name !in names[..n];
      InsertedCounts(map[], names, names, n, name);
      assert ActiveFor(map[], name) == {};
    }
  }

  /** Fewer starts than the limit, none overlapping, all land. */
  lemma {:induction false} OneByOneAllLand(n: nat)
    requires n < MAX_ACTIVE_FLOWS
    ensures Run(EMPTY, OneByOne(n)) == Registry(Lone(n), map[]) && AtMostStarting(EMPTY, OneByOne(n), 1)
  {
    if n > 0 {
      OneByOneAllLand(n - 1);
      LoneFlows(n - 1);
      var name := Name(n - 1);
      TogetherAllLand(Lone(n - 1), [name], [name]);
      RunBoth(EMPTY, OneByOne(n - 1), Alone(n - 1), 1);
      LoneGrows(n, n - 1);
      assert Inserted(Lone(n - 1), [name], [name], 1)
             == Inserted(Lone(n - 1), [name], [name], 0)[name := Flow(name, None)];
    }
  }

  lemma {:induction false} MoreMayOverlap(s: Registry, actions: seq<Action>, k: nat, more: nat)
    requires AtMostStarting(s, actions, k) && k <= more
    ensures AtMostStarting(s, actions, more)
    decreases |actions|
  {
    if actions != [] {
      MoreMayOverlap(Apply(s, actions[0]), actions[1..], k, more);
    }
  }

  /** With `k` overlapping starts, one or more, the overall limit is passed by `k - 1`. */
  lemma OverlapReachesTheOverallBound(k: nat)
    requires k >= 1
    ensures exists actions :: AtMostStarting(EMPTY, actions, k)
                              && |Active(Run(EMPTY, actions).flows)| == MAX_ACTIVE_FLOWS + k - 1
  {
    var base: nat := MAX_ACTIVE_FLOWS - 1;
    hide *;
    var names := Names(base, k);
    OneByOneAllLand(base);
    MoreMayOverlap(EMPTY, OneByOne(base), 1, k);
    RoomForOneMore(base, k);
    TogetherAllLand(Lone(base), names, names);
    InsertedCounts(Lone(base), names, names, k, "");
    RunBoth(EMPTY, OneByOne(base), Together(names, names), k);
    assert AtMostStarting(EMPTY, OneByOne(base) + Together(names, names), k);
  }

  lemma RoomForOneMore(base: nat, k: nat)
    requires base < MAX_ACTIVE_FLOWS
    ensures |Active(Lone(base))| == base && |Names(base, k)| == k
    ensures FreshIds(Lone(base), Names(base, k))
    ensures forall name :: name in Names(base, k) ==> WithinBounds(Lone(base), name)
  {
    var names := Names(base, k);
    NamesAreDistinct(base, k);
    LoneFlows(base);
    hide Names, Lone, Active, ActiveFor;
    forall name | name in names
      ensures name !in Lone(base) && WithinBounds(Lone(base), name)
    {
      assert |name| >= base;
    }
  }

  /** One agent's limit holds in every run exactly when starts never overlap. */
  lemma AgentLimitHoldsExactly(agent: string, k: nat)
    ensures (forall actions :: AtMostStarting(EMPTY, actions, k) ==>
               |ActiveFor(Run(EMPTY, actions).flows, agent)| <= MAX_ACTIVE_FLOWS_PER_AGENT) <==> k <= 1
  {
    if k <= 1 {
      forall actions | AtMostStarting(EMPTY, actions, k)
        ensures |ActiveFor(Run(EMPTY, actions).flows, agent)| <= MAX_ACTIVE_FLOWS_PER_AGENT
      {
        MoreMayOverlap(EMPTY, actions, k, 1);
        SerialStartsKeepTheLimits(actions, agent);
      }
    } else {
      OverlapReachesTheAgentBound(agent, k);
    }
  }

  /** The overall limit holds in every run exactly when starts never overlap. */
  lemma OverallLimitHoldsExactly(k: nat)
    ensures (forall actions :: AtMostStarting(EMPTY, actions, k) ==>
               |Active(Run(EMPTY, actions).flows)| <= MAX_ACTIVE_FLOWS) <==> k <= 1
  {
    if k <= 1 {
      forall actions | AtMostStarting(EMPTY, actions, k)
        ensures |Active(Run(EMPTY, actions).flows)| <= MAX_ACTIVE_FLOWS
      {
        MoreMayOverlap(EMPTY, actions, k, 1);
        SerialStartsKeepTheLimits(actions, "");
      }
    } else {
      OverlapReachesTheOverallBound(k);
    }
  }

  /** A finished flow stays readable for the retention time and an active one always. */
  lemma PruneForgetsOnlyOldFlows(s: Registry, now: int, id: string)
    ensures id in s.flows ==>
              (id !in Apply(s, Prune(now)).flows <==>
               s.flows[id].completedAt.Some? && now - s.flows[id].completedAt.value >= FINISHED_RETENTION)
    ensures Active(Apply(s, Prune(now)).flows) == Active(s.flows)
  {
  }

  lemma NoneActive(flows: map<string, Flow>, agent: string)
    ensures |ActiveFor(flows, agent)| < 1 <==>
              forall id :: id in flows && flows[id].agent == agent ==> flows[id].completedAt.Some?
  {
    if id :| id in flows && flows[id].agent == agent && flows[id].completedAt.None? {
      assert id in ActiveFor(flows, agent);
    } else {
      assert ActiveFor(flows, agent) == {};
    }
  }

  /** When a flow first finished in a run. */
  function FirstFinish(actions: seq<Action>, id: string): Option<int> {
    if actions == [] then None
    else if actions[0].Finish? && actions[0].id == id then Some(actions[0].at)
    else FirstFinish(actions[1..], id)
  }

  /** In every run a flow still known belongs to the agent it was started for, and finished when it first did. */
  lemma {:induction false} FlowKeepsItsAgentAndEnd(s: Registry, actions: seq<Action>, id: string)
    requires id in s.flows && forall a :: a in actions && a.Insert? ==> a.id != id
    requires id in Run(s, actions).flows
    ensures Run(s, actions).flows[id].agent == s.flows[id].agent
    ensures Run(s, actions).flows[id].completedAt
            == if s.flows[id].completedAt.Some? then s.flows[id].completedAt else FirstFinish(actions, id)
    decreases |actions|
  {
    if actions != [] {
      var s' := Apply(s, actions[0]);
      assert actions[0] in actions && forall a :: a in actions[1..] ==> a in actions;
      if id in s'.flows {
        FlowKeepsItsAgentAndEnd(s', actions[1..], id);
      } else {
        GoneStaysGone(s', actions[1..], id);
      }
    }
  }

  lemma {:induction false} GoneStaysGone(s: Registry, actions: seq<Action>, id: string)
    requires id !in s.flows && forall a :: a in actions && a.Insert? ==> a.id != id
    ensures id !in Run(s, actions).flows
    decreases |actions|
  {
    if actions != [] {
      assert actions[0] in actions && forall a :: a in actions[1..] ==> a in actions;
      GoneStaysGone(Apply(s, actions[0]), actions[1..], id);
    }
  }

  // ------------------------------------------------------------ the code

  class Flows {
    var flows: map<string, Flow>
    ghost var starting: map<nat, string>

    ghost function Model(): Registry
      reads this
    {
      Registry(flows, starting)
    }

    constructor ()
      ensures Model() == Registry(map[], map[])
    {
      flows, starting := map[], map[];
    }

    /** The check counts unfinished flows, over all agents and for this one. */
    method CheckBounds(ghost starter: nat, agent: string) returns (ok: bool)
      requires starter !in starting
      modifies `starting
      ensures ok == WithinBounds(flows, agent) && Model() == Apply(old(Model()), Check(starter, agent))
      ensures ok <==> |set id | id in flows && flows[id].completedAt.None?| < 4
                      && forall id :: id in flows && flows[id].agent == agent ==> flows[id].completedAt.Some?
      ensures starting == if ok then old(starting)[starter := agent] else old(starting)
    {
      NoneActive(flows, agent);
      ok := |Active(flows)| < MAX_ACTIVE_FLOWS && |ActiveFor(flows, agent)| < MAX_ACTIVE_FLOWS_PER_AGENT;
      if ok {
        starting := starting[starter := agent];
      }
    }

    method InsertFlow(ghost starter: nat, id: string, agent: string)
      requires starter in starting && starting[starter] == agent && id !in flows
      modifies this
      ensures Model() == Apply(old(Model()), Insert(starter, id))
      ensures flows == old(flows)[id := Flow(agent, None)] && starting == old(starting) - {starter}
    {
      flows := flows[id := Flow(agent, None)];
      starting := starting - {starter};
    }

    method PruneFlows(now: int)
      modifies `flows
      ensures Model() == Apply(old(Model()), Prune(now))
      ensures forall id :: id in flows <==>
                && id in old(flows)
                && !(old(flows)[id].completedAt.Some? && now - old(flows)[id].completedAt.value >= 120000)
      ensures forall id :: id in flows ==> flows[id] == old(flows)[id]
    {
      flows := Remembered(flows, now);
    }

    /** A start nothing else overlaps. */
    method Start(ghost starter: nat, id: string, agent: string, now: int) returns (started: bool)
      requires starting == map[] && id !in flows
      modifies this
      ensures starting == map[]
      ensures started == WithinBounds(old(flows), agent)
      ensures flows ==
                if started then Remembered(old(flows), now)[id := Flow(agent, None)] else Remembered(old(flows), now)
    {
      PruneForgetsOnlyOldFlows(Model(), now, id);
      ghost var before := flows;
      assert ActiveFor(Remembered(before, now), agent) == ActiveFor(before, agent);
      PruneFlows(now);
      started := CheckBounds(starter, agent);
      if started {
        InsertFlow(starter, id, agent);
        assert starting == map[];
      }
    }
  }
}
