/**
 The agent manager over its store and catalog: each operation under the mutation lock, with its
 failing store calls, equal to its transition in module AgentModel.
 */
module AgentManagers {
  import opened Collections
  import opened AgentModel

  datatype Failure = Invalid | Conflict | NotFound | Unavailable | StoreFailed

  class AgentCatalog {
    var entries: map<string, Definition>

    constructor (startup: map<string, Definition>)
      ensures entries == startup
    {
      entries := startup;
    }

    /** Adds an entry, unless its id is taken. */
    method Insert(definition: Definition) returns (inserted: bool)
      modifies this
      ensures inserted == (definition.id !in old(entries))
      ensures entries == if inserted then old(entries)[definition.id := definition] else old(entries)
    {
      if definition.id in entries {
        return false;
      }
      entries := entries[definition.id := definition];
      return true;
    }

    /** Replaces an entry the same source owns. */
    method Replace(definition: Definition) returns (replaced: bool)
      modifies this
      ensures replaced == (definition.id in old(entries) && old(entries)[definition.id].source == definition.source)
      ensures entries == if replaced then old(entries)[definition.id := definition] else old(entries)
    {
      if definition.id !in entries || entries[definition.id].source != definition.source {
        return false;
      }
      entries := entries[definition.id := definition];
      return true;
    }

    method Remove(id: string)
      modifies this
      ensures entries == old(entries) - {id}
    {
      entries := entries - {id};
    }
  }

  class AgentStore {
    var rows: map<string, Record>
    /** Per agent, the private environment values set for it. */
    var overrides: map<string, map<string, string>>

    constructor (rows: map<string, Record>, overrides: map<string, map<string, string>>)
      ensures this.rows == rows && this.overrides == overrides
    {
      this.rows, this.overrides := rows, overrides;
    }

    method InsertAgent(record: Record, writable: bool) returns (ok: bool)
      modifies `rows
      ensures ok == (writable && record.id !in old(rows))
      ensures rows == if ok then old(rows)[record.id := record] else old(rows)
    {
      if !writable || record.id in rows {
        return false;
      }
      rows := rows[record.id := record];
      return true;
    }

    method UpdateAgent(record: Record, writable: bool) returns (ok: bool)
      modifies `rows
      ensures ok == (writable && record.id in old(rows) && old(rows)[record.id].source == record.source)
      ensures rows == if ok then old(rows)[record.id := record] else old(rows)
    {
      if !writable || record.id !in rows || rows[record.id].source != record.source {
        return false;
      }
      rows := rows[record.id := record];
      return true;
    }

    method DeleteAgent(id: string, writable: bool) returns (ok: bool)
      modifies `rows
      ensures ok == (writable && id in old(rows))
      ensures rows == if ok then old(rows) - {id} else old(rows)
    {
      if !writable || id !in rows {
        return false;
      }
      rows := rows - {id};
      return true;
    }

    method DeleteAgentEnvForAgent(id: string, writable: bool)
      modifies `overrides
      ensures overrides == if writable then old(overrides) - {id} else old(overrides)
    {
      if writable {
        overrides := overrides - {id};
      }
    }
  }

  class AgentManager {
    const store: AgentStore
    const catalog: AgentCatalog
    var host: Host
    ghost var startup: map<string, Definition>
    ghost var asOf: map<string, Host>

    ghost function Model(): State
      reads this, store, catalog
    {
      State(store.rows, catalog.entries, startup, host, asOf)
    }

    ghost predicate Valid()
      reads this, store, catalog
    {
      Inv(Model())
    }

    constructor (store: AgentStore, catalog: AgentCatalog, host: Host)
      ensures this.store == store && this.catalog == catalog && this.host == host
      ensures startup == catalog.entries && asOf == map[]
    {
      this.store, this.catalog, this.host := store, catalog, host;
      startup, asOf := catalog.entries, map[];
    }

    /** Joins every durable row to the catalog, in id order, failing at the first id already there. */
    method LoadPersisted(readable: bool) returns (ok: bool)
      requires startup == catalog.entries && RowsOk(store.rows) && ReadOnly(startup)
      modifies this, catalog
      ensures ok == (readable && AgentModel.LoadPersisted(old(startup), store.rows, host).Some?)
      ensures ok ==> Valid() && Model() == Started(old(startup), store.rows, old(host))
    {
      hide Inv, Projections, Leq, RowsOk, ReadOnly;
      if !readable {
        return false;
      }
      var rows := store.rows;
      var left := rows.Keys;
      NoneJoined(startup, rows, host);
      while left != {}
        invariant left <= rows.Keys && startup.Keys !! rows.Keys - left
        invariant catalog.entries == Joined(startup, rows, left, host)
        decreases |left|
        modifies catalog
      {
        LeastExists(left);
        var id :| id in left && IsLeast(id, left);
        JoinOne(startup, rows, left, id, host);
        var inserted := catalog.Insert(Project(rows[id], host));
        if !inserted {
          return false;
        }
        left := left - {id};
      }
      AllJoined(startup, rows, host);
      asOf := map id | id in store.rows :: host;
      StartedInv(startup, store.rows, host);
      return true;
    }

    /** The id is free in the catalog and in the store. */
    method EnsureIdIsFree(id: string, readable: bool) returns (failure: Option<Failure>)
      ensures failure.None? <==> id !in catalog.entries && readable && id !in store.rows
      ensures failure == Some(StoreFailed) <==> id !in catalog.entries && !readable
      ensures failure.Some? ==> failure.value == StoreFailed || failure.value == Conflict
    {
      if id in catalog.entries {
        return Some(Conflict);
      }
      if !readable {
        return Some(StoreFailed);
      }
      return if id in store.rows then Some(Conflict) else None;
    }

    method RequireRecord(id: string, readable: bool) returns (record: Result<Record, Failure>)
      ensures record.Ok? <==> readable && id in store.rows
      ensures record.Ok? ==> record.value == store.rows[id]
      ensures record.Err? ==>
                record.error == if !readable then StoreFailed else if id in catalog.entries then Conflict else NotFound
    {
      if !readable {
        return Err(StoreFailed);
      }
      if id in store.rows {
        return Ok(store.rows[id]);
      }
      return Err(if id in catalog.entries then Conflict else NotFound);
    }

    /** Stores a new record, then shows it. The id was found free, so the catalog cannot refuse it
        and the row need never be taken back. */
    method AddRecord(record: Record, writable: bool) returns (ok: bool)
      requires Valid() && IsManaged(record.source) && record.id !in catalog.entries && record.id !in store.rows
      modifies this, store`rows, catalog
      ensures ok == writable && Model() == if ok then Put(old(Model()), record) else old(Model())
    {
      ok := store.InsertAgent(record, writable);
      if !ok {
        return;
      }
      var inserted := catalog.Insert(Project(record, host));
      assert inserted;
      asOf := asOf[record.id := host];
    }

    /** Stores a changed record, then shows it. The entry is there under the same source, so the
        catalog cannot refuse it. */
    method ChangeRecord(record: Record, writable: bool) returns (ok: bool)
      requires Valid() && record.id in store.rows && store.rows[record.id].source == record.source
      modifies this, store`rows, catalog
      ensures ok == writable && Model() == if ok then Put(old(Model()), record) else old(Model())
    {
      assert EntryInv(Model(), record.id);
      ok := store.UpdateAgent(record, writable);
      if !ok {
        return;
      }
      var replaced := catalog.Replace(Project(record, host));
      assert replaced;
      asOf := asOf[record.id := host];
    }

    method InstallAgent(id: string, command: string, details: string, snapshot: Snapshot, now: nat,
                        readable: bool, prepared: bool, writable: bool) returns (result: Result<Definition, Failure>)
      requires Valid()
      modifies this, store`rows, catalog
      ensures Valid()
      ensures Model() == Apply(old(Model()), Install(id, command, details, snapshot, now, readable, prepared, writable))
      ensures result.Ok? <==>
                id !in old(catalog.entries) && id !in old(store.rows) && readable && prepared && writable
      ensures result.Ok? ==>
                && store.rows == old(store.rows)[id :=
                     Record(id, Registry, command, details, Some(snapshot), false, now)]
                && catalog.entries == old(catalog.entries)[id := result.value]
                && result.value == Definition(id, Registry, command, details, UnavailableReason(store.rows[id], host))
      ensures result.Err? ==> Model() == old(Model())
    {
      StepKeepsInv(Model(), Install(id, command, details, snapshot, now, readable, prepared, writable));
      hide EntryInv;
      var taken := EnsureIdIsFree(id, readable);
      if taken.Some? {
        return Err(taken.value);
      }
      if !prepared {
        return Err(Invalid);
      }
      var record := Record(id, Registry, command, details, Some(snapshot), false, now);
      var ok := AddRecord(record, writable);
      return if ok then Ok(Project(record, host)) else Err(StoreFailed);
    }

    /** `resolved` is whether the registry still lists the agent, `prepared` whether its new version
        could be put on disk. */
    method UpdateAgent(id: string, command: string, details: string, snapshot: Snapshot,
                       readable: bool, resolved: bool, prepared: bool, writable: bool)
      returns (updated: Result<bool, Failure>)
      requires Valid()
      modifies this, store`rows, catalog
      ensures Valid()
      ensures Model()
              == Apply(old(Model()), Update(id, command, details, snapshot, readable, resolved && prepared, writable))
      ensures updated != Ok(true) ==> Model() == old(Model())
      ensures updated.Ok? <==>
                && readable && id in old(store.rows) && old(store.rows)[id].registry.Some?
                && old(store.rows)[id].source == Registry && resolved
                && (snapshot.version == old(store.rows)[id].registry.value.version || (prepared && writable))
      ensures updated.Ok? ==>
                (updated.value <==> snapshot.version != old(store.rows)[id].registry.value.version)
      ensures updated == Ok(true) ==>
                && store.rows == old(store.rows)[id :=
                     old(store.rows)[id].(command := command, details := details, registry := Some(snapshot))]
                && catalog.entries == old(catalog.entries)[id :=
                     Definition(id, Registry, command, details, UnavailableReason(store.rows[id], host))]
    {
      StepKeepsInv(Model(), Update(id, command, details, snapshot, readable, resolved && prepared, writable));
      assert EntryInv(Model(), id);
      hide EntryInv;
      var found := RequireRecord(id, readable);
      if found.Err? {
        return Err(found.error);
      }
      var record := found.value;
      if record.source != Registry || record.registry.None? {
        return Err(Conflict);
      }
      if !resolved {
        return Err(Unavailable);
      }
      if snapshot.version == record.registry.value.version {
        return Ok(false);
      }
      if !prepared {
        return Err(Invalid);
      }
      var ok := ChangeRecord(record.(command := command, details := details, registry := Some(snapshot)), writable);
      return if ok then Ok(true) else Err(StoreFailed);
    }

    /** Deletes an agent no chat names, with its private values when that write is accepted; retires
        one that chats still name, which keeps them. */
    method RemoveAgent(id: string, chats: nat, readable: bool, counted: bool, writable: bool, cleanable: bool)
      returns (deleted: Result<bool, Failure>)
      requires Valid()
      modifies this, store, catalog
      ensures Valid()
      ensures Model() == Apply(old(Model()), Remove(id, chats, readable, counted, writable))
      ensures deleted.Err? ==> Model() == old(Model())
      ensures deleted.Ok? <==> readable && id in old(store.rows) && counted && writable
      ensures deleted.Ok? ==> (deleted.value <==> chats == 0)
      ensures deleted == Ok(true) ==>
                store.rows == old(store.rows) - {id} && catalog.entries == old(catalog.entries) - {id}
      ensures deleted == Ok(false) ==>
                && store.rows == old(store.rows)[id := old(store.rows)[id].(retired := true)]
                && id in old(catalog.entries)
                && catalog.entries == old(catalog.entries)[id :=
                     old(catalog.entries)[id].(unavailable := Some(Uninstalled))]
      ensures store.overrides ==
                if deleted == Ok(true) && cleanable then old(store.overrides) - {id} else old(store.overrides)
    {
      StepKeepsInv(Model(), Remove(id, chats, readable, counted, writable));
      assert EntryInv(Model(), id);
      hide EntryInv;
      var found := RequireRecord(id, readable);
      if found.Err? {
        return Err(found.error);
      }
      var record := found.value;
      if !IsManaged(record.source) {
        return Err(Conflict);
      }
      if !counted {
        return Err(StoreFailed);
      }
      if chats > 0 {
        var ok := ChangeRecord(record.(retired := true), writable);
        return if ok then Ok(false) else Err(StoreFailed);
      }
      var ok := store.DeleteAgent(id, writable);
      if !ok {
        return Err(StoreFailed);
      }
      store.DeleteAgentEnvForAgent(id, cleanable);
      catalog.Remove(id);
      asOf := asOf - {id};
      return Ok(true);
    }

    method CreateCustomAgent(id: string, command: string, details: string, now: nat, valid: bool, readable: bool,
                             writable: bool)
      returns (result: Result<Definition, Failure>)
      requires Valid()
      modifies this, store`rows, catalog
      ensures Valid()
      ensures Model() == Apply(old(Model()), CreateCustom(id, command, details, now, valid, readable, writable))
      ensures result.Ok? <==> valid && id !in old(catalog.entries) && id !in old(store.rows) && readable && writable
      ensures result.Ok? ==>
                && store.rows == old(store.rows)[id := Record(id, BateyManaged, command, details, None, false, now)]
                && catalog.entries == old(catalog.entries)[id := result.value]
                && result.value == Definition(id, BateyManaged, command, details, None)
      ensures result.Err? ==> Model() == old(Model())
    {
      StepKeepsInv(Model(), CreateCustom(id, command, details, now, valid, readable, writable));
      hide EntryInv;
      if !valid {
        return Err(Invalid);
      }
      var taken := EnsureIdIsFree(id, readable);
      if taken.Some? {
        return Err(taken.value);
      }
      var record := Record(id, BateyManaged, command, details, None, false, now);
      var ok := AddRecord(record, writable);
      return if ok then Ok(Project(record, host)) else Err(StoreFailed);
    }

    /** Rebuilds the record from the input, keeping its id and creation time only. */
    method EditCustomAgent(id: string, newId: string, command: string, details: string, valid: bool, readable: bool,
                           writable: bool)
      returns (result: Result<Definition, Failure>)
      requires Valid()
      modifies this, store`rows, catalog
      ensures Valid()
      ensures Model() == Apply(old(Model()), EditCustom(id, newId, command, details, valid, readable, writable))
      ensures result.Ok? <==>
                && readable && id in old(store.rows) && old(store.rows)[id].source == BateyManaged
                && newId == id && valid && writable
      ensures result.Ok? ==>
                && store.rows == old(store.rows)[id :=
                     Record(id, BateyManaged, command, details, None, false, old(store.rows)[id].createdAt)]
                && catalog.entries == old(catalog.entries)[id := result.value]
                && result.value == Definition(id, BateyManaged, command, details, None)
      ensures result.Err? ==> Model() == old(Model())
    {
      StepKeepsInv(Model(), EditCustom(id, newId, command, details, valid, readable, writable));
      hide EntryInv;
      var found := RequireRecord(id, readable);
      if found.Err? {
        return Err(found.error);
      }
      var record := found.value;
      if record.source != BateyManaged {
        return Err(Conflict);
      }
      if newId != id || !valid {
        return Err(Invalid);
      }
      var updated := Record(id, BateyManaged, command, details, None, false, record.createdAt);
      var ok := ChangeRecord(updated, writable);
      return if ok then Ok(Project(updated, host)) else Err(StoreFailed);
    }
  }

  /** The catalog while `left` is still to join. */
  function Joined(startup: map<string, Definition>, rows: map<string, Record>, left: set<string>,
                  host: Host): map<string, Definition> {
    startup + Projections(rows - left, host)
  }

  lemma NoneJoined(startup: map<string, Definition>, rows: map<string, Record>, host: Host)
    ensures Joined(startup, rows, rows.Keys, host) == startup
  {
    assert rows - rows.Keys == map[];
  }

  lemma AllJoined(startup: map<string, Definition>, rows: map<string, Record>, host: Host)
    ensures Joined(startup, rows, {}, host) == startup + Projections(rows, host)
  {
    assert rows - {} == rows;
  }

  /** The next row joins exactly when its id is not a read-only one. */
  lemma JoinOne(startup: map<string, Definition>, rows: map<string, Record>, left: set<string>, id: string, host: Host)
    requires left <= rows.Keys && id in left && RowsOk(rows)
    ensures rows[id].id == id
    ensures id in Joined(startup, rows, left, host) <==> id in startup.Keys
    ensures Joined(startup, rows, left - {id}, host) == Joined(startup, rows, left, host)[id := Project(rows[id], host)]
    ensures |left - {id}| < |left|
    ensures id in startup.Keys ==> !(startup.Keys !! rows.Keys)
    ensures rows.Keys - (left - {id}) == (rows.Keys - left) + {id}
  {
    assert RowOk(id, rows[id]);
    SmallerSet(rows.Keys, left, id);
    if id in startup.Keys {
      assert id in startup.Keys * rows.Keys;
    }
    JoinedGrows(startup, rows, left, id, host);
    assert id !in rows - left;
  }

  lemma SmallerSet(all: set<string>, left: set<string>, id: string)
    requires left <= all && id in left
    ensures |left - {id}| < |left| && all - (left - {id}) == (all - left) + {id}
  {
    assert left == (left - {id}) + {id};
  }

  lemma JoinedGrows(startup: map<string, Definition>, rows: map<string, Record>, left: set<string>, id: string,
                    host: Host)
    requires left <= rows.Keys && id in left
    ensures Joined(startup, rows, left - {id}, host) == Joined(startup, rows, left, host)[id := Project(rows[id], host)]
  {
    var before, after := rows - left, rows - (left - {id});
    assert after == before[id := rows[id]];
    assert Projections(after, host) == Projections(before, host)[id := Project(rows[id], host)];
  }
}
