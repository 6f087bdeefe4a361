/**
 Installed agents: the durable rows, the catalog that projects them, and the operations that change
 both under one mutation lock.
 */
module AgentModel {
  import opened Collections

  datatype Source = Builtin | File | BateyManaged | Registry | Declarative

  datatype Distribution = Binary | Npx | Uvx

  datatype Snapshot = Snapshot(registryId: string, version: string, distribution: Distribution,
                               installDir: Option<string>)

  /** `details` stands for the fields an operation sets together and no rule reads. */
  datatype Record = Record(
    id: string,
    source: Source,
    command: string,
    details: string,
    registry: Option<Snapshot>,
    retired: bool,
    createdAt: nat)

  datatype Reason = Uninstalled | BinaryMissing(path: string) | NotOnPath(program: string)

  datatype Definition = Definition(id: string, source: Source, command: string, details: string,
                                   unavailable: Option<Reason>)

  /** What the runtime probe can see. */
  datatype Host = Host(files: set<string>, onPath: set<string>)

  predicate IsManaged(source: Source) {
    source.BateyManaged? || source.Registry?
  }

  function UnavailableReason(record: Record, host: Host): Option<Reason> {
    if record.retired then Some(Uninstalled)
    else if record.registry.None? then None
    else match record.registry.value.distribution
      case Binary => if record.command in host.files then None else Some(BinaryMissing(record.command))
      case Npx => if "npx" in host.onPath then None else Some(NotOnPath("npx"))
      case Uvx => if "uvx" in host.onPath then None else Some(NotOnPath("uvx"))
  }

  /** The host has what the record is started with. */
  predicate Runs(record: Record, host: Host) {
    record.registry.Some? ==>
      match record.registry.value.distribution
      case Binary => record.command in host.files
      case Npx => "npx" in host.onPath
      case Uvx => "uvx" in host.onPath
  }

  /** An agent is available exactly when it is not retired and the host has its runtime; the reason says
      which of the two fails, and what is missing. */
  lemma UnavailableMeaning(record: Record, host: Host)
    ensures UnavailableReason(record, host) == None <==> !record.retired && Runs(record, host)
    ensures UnavailableReason(record, host) == Some(Uninstalled) <==> record.retired
    ensures forall path :: UnavailableReason(record, host) == Some(BinaryMissing(path)) ==>
              path == record.command && path !in host.files
    ensures forall program :: UnavailableReason(record, host) == Some(NotOnPath(program)) ==>
              && program !in host.onPath && record.registry.Some?
              && ((program == "npx" && record.registry.value.distribution.Npx?)
                  || (program == "uvx" && record.registry.value.distribution.Uvx?))
  {
  }

  function Project(record: Record, host: Host): Definition {
    Definition(record.id, record.source, record.command, record.details, UnavailableReason(record, host))
  }

  /** `startup` holds the read-only entries, `asOf` the host each row was last projected on. */
  datatype State = State(
    rows: map<string, Record>,
    catalog: map<string, Definition>,
    startup: map<string, Definition>,
    host: Host,
    asOf: map<string, Host>)

  /** Each store call can fail: `readable` and `counted` are whether reads succeed, `writable` whether
      the write does. `prepared` is whether resolving and preparing the distribution succeeds, `valid`
      whether the submitted definition passes its field checks. */
  datatype Action =
    | Install(id: string, command: string, details: string, snapshot: Snapshot, now: nat, readable: bool,
              prepared: bool, writable: bool)
    | Update(id: string, command: string, details: string, snapshot: Snapshot, readable: bool, prepared: bool,
             writable: bool)
    | Remove(id: string, chats: nat, readable: bool, counted: bool, writable: bool)
    | CreateCustom(id: string, command: string, details: string, now: nat, valid: bool, readable: bool, writable: bool)
    | EditCustom(id: string, newId: string, command: string, details: string, valid: bool, readable: bool,
                 writable: bool)
    | RefreshAvailability(readable: bool)
    | HostChanges(host: Host)

  function Put(s: State, record: Record): State {
    s.(rows := s.rows[record.id := record], catalog := s.catalog[record.id := Project(record, s.host)],
       asOf := s.asOf[record.id := s.host])
  }

  function Projections(rows: map<string, Record>, host: Host): map<string, Definition> {
    map id | id in rows :: Project(rows[id], host)
  }

  /** A call that is refused, or whose store call fails, leaves the state as it is. */
  function Apply(s: State, a: Action): State {
    match a
    case Install(id, command, details, snapshot, now, readable, prepared, writable) =>
      if id in s.catalog || !readable || id in s.rows || !prepared || !writable then s
      else Put(s, Record(id, Registry, command, details, Some(snapshot), false, now))
    case Update(id, command, details, snapshot, readable, prepared, writable) =>
      if !readable || id !in s.rows || !s.rows[id].source.Registry? || s.rows[id].registry.None? || !prepared
         || snapshot.version == s.rows[id].registry.value.version || !writable
      then s
      else Put(s, s.rows[id].(command := command, details := details, registry := Some(snapshot)))
    case Remove(id, chats, readable, counted, writable) =>
      if !readable || id !in s.rows || !IsManaged(s.rows[id].source) || !counted || !writable then s
      else if chats > 0 then Put(s, s.rows[id].(retired := true))
      else s.(rows := s.rows - {id}, catalog := s.catalog - {id}, asOf := s.asOf - {id})
    case CreateCustom(id, command, details, now, valid, readable, writable) =>
      if !valid || id in s.catalog || !readable || id in s.rows || !writable then s
      else Put(s, Record(id, BateyManaged, command, details, None, false, now))
    case EditCustom(id, newId, command, details, valid, readable, writable) =>
      if !readable || id !in s.rows || !s.rows[id].source.BateyManaged? || newId != id || !valid || !writable then s
      else Put(s, Record(id, BateyManaged, command, details, None, false, s.rows[id].createdAt))
    case RefreshAvailability(readable) =>
      if !readable then s
      else s.(catalog := s.catalog + Projections(s.rows, s.host), asOf := map id | id in s.rows :: s.host)
    case HostChanges(host) => s.(host := host)
  }

  function Run(s: State, actions: seq<Action>): State
    decreases |actions|
  {
    if actions == [] then s else Run(Apply(s, actions[0]), actions[1..])
  }

  // ------------------------------------------------------------ startup

  /** The catalog after every durable row joined the read-only entries, unless two claim one id. */
  function LoadPersisted(startup: map<string, Definition>, rows: map<string, Record>, host: Host)
    : Option<map<string, Definition>>
  {
    if startup.Keys !! rows.Keys then Some(startup + Projections(rows, host)) else None
  }

  predicate RowOk(id: string, record: Record) {
    record.id == id && IsManaged(record.source)
  }

  ghost predicate RowsOk(rows: map<string, Record>) {
    forall id :: id in rows ==> RowOk(id, rows[id])
  }

  ghost predicate ReadOnly(entries: map<string, Definition>) {
    forall id :: id in entries ==> entries[id].id == id && !IsManaged(entries[id].source)
  }

  function Started(startup: map<string, Definition>, rows: map<string, Record>, host: Host): State {
    State(rows, startup + Projections(rows, host), startup, host, map id | id in rows :: host)
  }

  // ------------------------------------------------------------ invariant

  /** One id: read-only exactly when it was at startup, otherwise the projection of its row. */
  predicate EntryInv(s: State, id: string) {
    && (id in s.rows ==> RowOk(id, s.rows[id]) && id !in s.startup && id in s.asOf && id in s.catalog
                         && s.catalog[id] == Project(s.rows[id], s.asOf[id]))
    && (id in s.startup ==> id in s.catalog && s.catalog[id] == s.startup[id] && !IsManaged(s.startup[id].source))
    && (id in s.catalog ==> id in s.rows || id in s.startup)
    && (id in s.asOf ==> id in s.rows)
  }

  ghost predicate Inv(s: State) {
    forall id :: EntryInv(s, id)
  }

  lemma StartedInv(startup: map<string, Definition>, rows: map<string, Record>, host: Host)
    requires RowsOk(rows) && ReadOnly(startup) && startup.Keys !! rows.Keys
    ensures Inv(Started(startup, rows, host))
  {
    forall id
      ensures EntryInv(Started(startup, rows, host), id)
    {
      assert id in startup ==> id in startup.Keys && id !in rows.Keys;
    }
  }

  lemma StepKeepsEntry(s: State, a: Action, id: string)
    requires Inv(s)
    ensures EntryInv(Apply(s, a), id)
  {
    assert EntryInv(s, id);
    if !a.HostChanges? && !a.RefreshAvailability? {
      assert EntryInv(s, a.id);
    }
  }

  lemma StepKeepsInv(s: State, a: Action)
    requires Inv(s)
    ensures Inv(Apply(s, a))
  {
    forall id
      ensures EntryInv(Apply(s, a), id)
    {
      StepKeepsEntry(s, a, id);
    }
    hide EntryInv;
  }

  lemma {:induction false} RunKeepsInv(s: State, actions: seq<Action>)
    requires Inv(s)
    ensures Inv(Run(s, actions))
    ensures Run(s, actions).startup == s.startup
    decreases |actions|
  {
    hide Inv;
    if actions != [] {
      StepKeepsInv(s, actions[0]);
      RunKeepsInv(Apply(s, actions[0]), actions[1..]);
    }
  }

  // ------------------------------------------------------------ results over every run

  function ProjectionsAsOf(rows: map<string, Record>, asOf: map<string, Host>): map<string, Definition>
    requires rows.Keys <= asOf.Keys
  {
    map id | id in rows :: Project(rows[id], asOf[id])
  }

  /** In every run the catalog is the read-only entries of startup and the projections of the durable
      rows, and nothing else. */
  lemma CatalogIsStartupAndRows(startup: map<string, Definition>, rows: map<string, Record>, host: Host,
                                actions: seq<Action>)
    requires RowsOk(rows) && ReadOnly(startup) && startup.Keys !! rows.Keys
    ensures var s := Run(Started(startup, rows, host), actions);
            && s.rows.Keys <= s.asOf.Keys
            && s.catalog == startup + ProjectionsAsOf(s.rows, s.asOf)
            && (forall id :: id in s.catalog && IsManaged(s.catalog[id].source) <==> id in s.rows)
  {
    StartedInv(startup, rows, host);
    RunKeepsInv(Started(startup, rows, host), actions);
    var s := Run(Started(startup, rows, host), actions);
    hide Run;
    forall id | id in s.rows
      ensures id in s.asOf
    {
      assert EntryInv(s, id);
    }
    var expected := startup + ProjectionsAsOf(s.rows, s.asOf);
    forall id
      ensures id in s.catalog <==> id in expected
      ensures id in s.catalog ==> s.catalog[id] == expected[id]
      ensures id in s.catalog && IsManaged(s.catalog[id].source) <==> id in s.rows
    {
      assert EntryInv(s, id);
    }
  }

  /** Restarting into the same read-only entries always succeeds, and rebuilds the very catalog exactly
      when every row's availability is what it was when last projected. */
  lemma RestartRebuildsTheCatalog(startup: map<string, Definition>, rows: map<string, Record>, host: Host,
                                  actions: seq<Action>)
    requires RowsOk(rows) && ReadOnly(startup) && startup.Keys !! rows.Keys
    ensures var s := Run(Started(startup, rows, host), actions);
            && LoadPersisted(startup, s.rows, s.host).Some?
            && (LoadPersisted(startup, s.rows, s.host) == Some(s.catalog) <==>
                forall id :: id in s.rows ==>
                    id in s.asOf && UnavailableReason(s.rows[id], s.host) == UnavailableReason(s.rows[id], s.asOf[id]))
  {
    StartedInv(startup, rows, host);
    RunKeepsInv(Started(startup, rows, host), actions);
    var s := Run(Started(startup, rows, host), actions);
    hide Run;
    forall id
      ensures EntryInv(s, id)
    {
    }
    assert startup.Keys !! s.rows.Keys by {
      assert forall id :: EntryInv(s, id) ==> !(id in s.rows && id in startup);
    }
    var loaded := startup + Projections(s.rows, s.host);
    if loaded == s.catalog {
      forall id | id in s.rows
        ensures id in s.asOf && UnavailableReason(s.rows[id], s.host) == UnavailableReason(s.rows[id], s.asOf[id])
      {
        assert EntryInv(s, id) && loaded[id] == s.catalog[id];
      }
    }
    if forall id :: id in s.rows ==>
        id in s.asOf && UnavailableReason(s.rows[id], s.host) == UnavailableReason(s.rows[id], s.asOf[id]) {
      forall id
        ensures id in loaded <==> id in s.catalog
        ensures id in loaded ==> loaded[id] == s.catalog[id]
      {
        assert EntryInv(s, id);
      }
    }
  }

  predicate KeepsHost(a: Action) {
    !a.HostChanges?
  }

  predicate OnHost(s: State, host: Host) {
    s.host == host && forall id :: id in s.asOf ==> s.asOf[id] == host
  }

  lemma {:induction false} StaysOnHost(s: State, actions: seq<Action>, host: Host)
    requires OnHost(s, host) && forall a :: a in actions ==> KeepsHost(a)
    ensures OnHost(Run(s, actions), host)
    decreases |actions|
  {
    if actions != [] {
      assert KeepsHost(actions[0]);
      assert OnHost(Apply(s, actions[0]), host);
      StaysOnHost(Apply(s, actions[0]), actions[1..], host);
    }
  }

  /** While the host stays as it is, a restart rebuilds the same catalog after any run. */
  lemma RestartIsInvisibleOnAFixedHost(startup: map<string, Definition>, rows: map<string, Record>, host: Host,
                                       actions: seq<Action>)
    requires RowsOk(rows) && ReadOnly(startup) && startup.Keys !! rows.Keys && forall a :: a in actions ==> KeepsHost(a)
    ensures var s := Run(Started(startup, rows, host), actions);
            LoadPersisted(startup, s.rows, host) == Some(s.catalog)
  {
    RestartRebuildsTheCatalog(startup, rows, host, actions);
    StaysOnHost(Started(startup, rows, host), actions, host);
    StartedInv(startup, rows, host);
    RunKeepsInv(Started(startup, rows, host), actions);
    var s := Run(Started(startup, rows, host), actions);
    hide Run;
    forall id | id in s.rows
      ensures id in s.asOf && s.asOf[id] == host
    {
      assert EntryInv(s, id);
    }
  }

  /** The runtime new sessions start from. */
  predicate HasRuntime(catalog: map<string, Definition>, id: string) {
    id in catalog && catalog[id].unavailable.None?
  }

  /** In every run a retired agent has an entry and no runtime, whatever the host offers. */
  lemma RetiredAgentsHaveNoRuntime(startup: map<string, Definition>, rows: map<string, Record>, host: Host,
                                   actions: seq<Action>, id: string)
    requires RowsOk(rows) && ReadOnly(startup) && startup.Keys !! rows.Keys
    requires id in Run(Started(startup, rows, host), actions).rows
             && Run(Started(startup, rows, host), actions).rows[id].retired
    ensures var s := Run(Started(startup, rows, host), actions);
            id in s.catalog && !HasRuntime(s.catalog, id) && s.catalog[id].unavailable == Some(Uninstalled)
  {
    StartedInv(startup, rows, host);
    RunKeepsInv(Started(startup, rows, host), actions);
    assert EntryInv(Run(Started(startup, rows, host), actions), id);
  }

  /** A step ends a retirement exactly when it is a successful edit of that agent's own definition or a
      removal with no chat left. */
  lemma RetirementEndsExactly(s: State, a: Action, id: string)
    requires Inv(s) && id in s.rows && s.rows[id].retired
    ensures !(id in Apply(s, a).rows && Apply(s, a).rows[id].retired) <==>
              (a.EditCustom? && a.id == id && a.newId == id && a.readable && a.valid && a.writable
               && s.rows[id].source.BateyManaged?)
              || (a.Remove? && a.id == id && a.chats == 0 && a.readable && a.counted && a.writable)
  {
    assert EntryInv(s, id);
    if !a.HostChanges? && !a.RefreshAvailability? {
      assert EntryInv(s, a.id);
    }
  }

  /** The step that retires an agent: an accepted removal with chats left. */
  predicate Retires(s: State, a: Action, id: string) {
    a.Remove? && a.id == id && a.chats > 0 && a.readable && a.counted && a.writable && id in s.rows
  }

  /** The steps that end a retirement, or would: see `RetirementEndsExactly`. */
  predicate Revives(s: State, a: Action, id: string) {
    || (a.EditCustom? && a.id == id && a.newId == id && a.readable && a.valid && a.writable
        && id in s.rows && s.rows[id].source.BateyManaged?)
    || (a.Remove? && a.id == id && a.chats == 0 && a.readable && a.counted && a.writable)
  }

  predicate IsRetired(s: State, id: string) {
    id in s.rows && s.rows[id].retired
  }

  /** A step retires an agent that is not retired exactly when it is an accepted removal of it with chats left. */
  lemma RetirementBeginsExactly(s: State, a: Action, id: string)
    requires Inv(s) && !IsRetired(s, id)
    ensures IsRetired(Apply(s, a), id) <==> Retires(s, a, id)
  {
    assert EntryInv(s, id);
    if !a.HostChanges? && !a.RefreshAvailability? {
      assert EntryInv(s, a.id);
    }
  }

  /** Retired by some step of the run, or before it, and not revived since. */
  predicate RetiredAfter(s: State, retired: bool, actions: seq<Action>, id: string)
    decreases |actions|
  {
    if actions == [] then retired
    else
      var a := actions[0];
      RetiredAfter(Apply(s, a), if retired then !Revives(s, a, id) else Retires(s, a, id), actions[1..], id)
  }

  lemma {:induction false} RetiredIsTracked(s: State, actions: seq<Action>, id: string)
    requires Inv(s)
    ensures IsRetired(Run(s, actions), id) <==> RetiredAfter(s, IsRetired(s, id), actions, id)
    decreases |actions|
  {
    if actions != [] {
      var a := actions[0];
      if IsRetired(s, id) {
        RetirementEndsExactly(s, a, id);
      } else {
        RetirementBeginsExactly(s, a, id);
      }
      StepKeepsInv(s, a);
      assert IsRetired(Apply(s, a), id) <==> if IsRetired(s, id) then !Revives(s, a, id) else Retires(s, a, id);
      hide Inv, Apply, IsRetired, Revives, Retires;
      RetiredIsTracked(Apply(s, a), actions[1..], id);
    }
  }

  /** In every run an agent is retired exactly when an accepted removal left it to its chats and neither an
      edit nor a removal without chats came since. */
  lemma RetiredExactly(startup: map<string, Definition>, rows: map<string, Record>, host: Host, actions: seq<Action>,
                       id: string)
    requires RowsOk(rows) && ReadOnly(startup) && startup.Keys !! rows.Keys
    ensures var s0 := Started(startup, rows, host);
            IsRetired(Run(s0, actions), id) <==> RetiredAfter(s0, id in rows && rows[id].retired, actions, id)
  {
    StartedInv(startup, rows, host);
    RetiredIsTracked(Started(startup, rows, host), actions, id);
  }

  /** In every run each row's entry shows the row's own id, source, command and details, and is marked
      unavailable exactly when the row is retired or the host it was projected on lacked its runtime. */
  lemma EntryShowsItsRow(startup: map<string, Definition>, rows: map<string, Record>, host: Host, actions: seq<Action>,
                         id: string)
    requires RowsOk(rows) && ReadOnly(startup) && startup.Keys !! rows.Keys
    requires id in Run(Started(startup, rows, host), actions).rows
    ensures var s := Run(Started(startup, rows, host), actions);
            && id in s.catalog && id in s.asOf
            && var row := s.rows[id];
            && var entry := s.catalog[id];
            && row.id == id && entry.id == id && entry.source == row.source
            && entry.command == row.command && entry.details == row.details
            && (entry.unavailable == None <==> !row.retired && Runs(row, s.asOf[id]))
  {
    StartedInv(startup, rows, host);
    RunKeepsInv(Started(startup, rows, host), actions);
    var s := Run(Started(startup, rows, host), actions);
    assert EntryInv(s, id);
    UnavailableMeaning(s.rows[id], s.asOf[id]);
  }

  /** A re-reading of availability brings every row's entry to what the host offers now. */
  lemma RefreshReadsTheHost(s: State, id: string)
    requires Inv(s) && id in s.rows
    ensures var s' := Apply(s, RefreshAvailability(true));
            && s'.rows == s.rows && id in s'.catalog && s'.catalog[id].command == s.rows[id].command
            && (HasRuntime(s'.catalog, id) <==> !s.rows[id].retired && Runs(s.rows[id], s.host))
  {
    assert EntryInv(s, id);
    UnavailableMeaning(s.rows[id], s.host);
  }

  /** Editing a retired definition makes it available again: retirement is not permanent. */
  lemma EditRevivesRetired(s: State, id: string, command: string, details: string)
    requires Inv(s) && id in s.rows && s.rows[id].retired && s.rows[id].source.BateyManaged?
    ensures var s' := Apply(s, EditCustom(id, id, command, details, true, true, true));
            !HasRuntime(s.catalog, id) && HasRuntime(s'.catalog, id) && s'.rows[id].createdAt == s.rows[id].createdAt
  {
    assert EntryInv(s, id);
  }

  /** No operation touches another agent's row or entry, nor any read-only entry. */
  lemma OperationsTouchOnlyTheirAgent(s: State, a: Action, other: string)
    requires Inv(s) && (a.HostChanges? || a.RefreshAvailability? || other != a.id || other in s.startup)
    ensures other in s.rows <==> other in Apply(s, a).rows
    ensures other in s.rows ==> Apply(s, a).rows[other] == s.rows[other]
    ensures other in s.catalog <==> other in Apply(s, a).catalog
    ensures other in s.catalog && !a.RefreshAvailability? ==> Apply(s, a).catalog[other] == s.catalog[other]
    ensures other in s.startup ==> other in Apply(s, a).catalog && Apply(s, a).catalog[other] == s.startup[other]
  {
    assert EntryInv(s, other);
    if !a.HostChanges? && !a.RefreshAvailability? {
      assert EntryInv(s, a.id);
    }
  }
}
