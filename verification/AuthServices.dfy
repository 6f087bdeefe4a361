/**
 The discovery-cache code over all agents: an invalidation map in memory and the rows in the store,
 each agent's part moving by the transitions of module DiscoveryCache and no other agent's moving.
 */
module AuthServices {
  import opened Collections
  import opened DiscoveryCache

  /** Per agent, the history the proofs keep beside the code's own state. */
  datatype Tracking = Tracking(
    probes: map<nat, nat>,
    passed: map<nat, Passed>,
    stamps: nat,
    marking: map<nat, Kind>,
    writer: Option<Writer>)

  function Untracked(row: Option<Row>): Tracking {
    Tracking(map[], map[], 0, map[], StartWriter(row))
  }

  function At<V>(m: map<string, V>, agent: string): Option<V> {
    if agent in m then Some(m[agent]) else None
  }

  class AgentAuthService {
    const hasStore: bool
    var now: nat
    var invalidatedAt: map<string, nat>
    var rows: map<string, Row>
    ghost var tracking: map<string, Tracking>

    /** One agent's part. */
    ghost function Model(agent: string): Cache
      reads this
    {
      var t := if agent in tracking then tracking[agent] else Untracked(At(rows, agent));
      Cache(now, At(invalidatedAt, agent), At(rows, agent), t.probes, t.passed, t.stamps, t.marking, t.writer)
    }

    ghost predicate Valid()
      reads this
    {
      (forall agent :: Inv(Model(agent))) && (!hasStore ==> rows == map[])
    }

    /** A start over the rows of earlier processes, or without a store. */
    constructor (hasStore: bool, rows: map<string, Row>)
      requires hasStore || rows == map[]
      ensures Valid() && this.hasStore == hasStore && forall agent :: Model(agent) == Fresh(At(rows, agent))
    {
      this.hasStore, this.rows, now, invalidatedAt, tracking := hasStore, rows, 0, map[], map[];
    }

    twostate predicate OthersUnchanged(agent: string)
      reads this
    {
      forall other :: other != agent ==> Model(other) == old(Model(other))
    }

    twostate lemma OneAgentMoved(agent: string)
      requires old(Valid()) && OthersUnchanged(agent) && Inv(Model(agent)) && (!hasStore ==> rows == map[])
      ensures Valid()
    {
      forall other
        ensures Inv(Model(other))
      {
        assert other != agent ==> Model(other) == old(Model(other));
      }
    }

    /** The agent's row holds this discovery, checked at this time and not stale. */
    ghost predicate Shows(agent: string, d: Discovery, at: nat)
      reads this
    {
      agent in rows && rows[agent].methods == d.methods && rows[agent].logout == d.logout
      && rows[agent].checkedAt == Some(at) && !rows[agent].stale
    }

    /** The evidence on record for the agent. */
    ghost function Seen(agent: string): (Option<string>, Option<nat>)
      reads this
    {
      if agent in rows then (rows[agent].observed, rows[agent].observedAt) else (None, None)
    }

    /** Records one agent's history after a step. */
    ghost method Track(agent: string, s: Cache)
      modifies `tracking
      ensures tracking == old(tracking)[agent := Tracking(s.probes, s.passed, s.stamps, s.marking, s.writer)]
    {
      tracking := tracking[agent := Tracking(s.probes, s.passed, s.stamps, s.marking, s.writer)];
    }

    /** Time passes, for every agent at once. */
    method ClockTicks()
      requires Valid()
      modifies `now
      ensures Valid() && forall agent :: Model(agent) == Apply(old(Model(agent)), Tick)
    {
      forall agent
        ensures Inv(Apply(Model(agent), Tick))
      {
        StepKeepsInv(Model(agent), Tick);
      }
      hide Inv;
      now := now + 1;
      assert forall agent :: Model(agent) == Apply(old(Model(agent)), Tick);
    }

    method StartProbe(agent: string, ghost probe: nat) returns (startedAt: nat)
      requires Valid() && probe !in Model(agent).probes && probe !in Model(agent).passed
      modifies `tracking
      ensures Valid() && startedAt == now
      ensures Model(agent) == Apply(old(Model(agent)), Action.StartProbe(probe)) && OthersUnchanged(agent)
    {
      StepKeepsInv(Model(agent), Action.StartProbe(probe));
      hide Inv;
      Track(agent, Apply(Model(agent), Action.StartProbe(probe)));
      OneAgentMoved(agent);
      return now;
    }

    /** The first section of a cache write. */
    method CheckSuperseded(agent: string, ghost probe: nat, startedAt: nat) returns (superseded: bool)
      requires Valid() && probe in Model(agent).probes && Model(agent).probes[probe] == startedAt
      modifies `tracking
      ensures Valid() && superseded == (agent in invalidatedAt && startedAt <= invalidatedAt[agent])
      ensures Model(agent) == Apply(old(Model(agent)), Check(probe)) && OthersUnchanged(agent)
    {
      StepKeepsInv(Model(agent), Check(probe));
      hide Inv;
      superseded := agent in invalidatedAt && startedAt <= invalidatedAt[agent];
      Track(agent, Apply(Model(agent), Check(probe)));
      OneAgentMoved(agent);
    }

    /** The store's save: the observed fields are merged under the store lock. */
    method SaveFull(agent: string, ghost probe: nat, d: Discovery, writable: bool) returns (saved: bool)
      requires Valid() && hasStore && probe in Model(agent).passed
      modifies `rows, `tracking
      ensures Valid() && saved == writable
      ensures Model(agent) == Apply(old(Model(agent)), Save(probe, d, writable)) && OthersUnchanged(agent)
      ensures saved ==> Shows(agent, d, now) && Seen(agent) == old(Seen(agent))
      ensures !saved ==> rows == old(rows)
    {
      ghost var before := Model(agent);
      StepKeepsInv(before, Save(probe, d, writable));
      hide Inv;
      if writable {
        var observed, observedAt := None, None;
        if agent in rows {
          observed, observedAt := rows[agent].observed, rows[agent].observedAt;
        }
        rows := rows[agent := Row(d.methods, d.logout, Some(now), false, observed, observedAt)];
      }
      Track(agent, Apply(before, Save(probe, d, writable)));
      OneAgentMoved(agent);
      return writable;
    }

    /** A whole cache write with nothing in between. Without a store there is nothing to supersede. */
    method CacheWriteFull(agent: string, ghost probe: nat, d: Discovery, startedAt: nat, writable: bool)
      returns (committed: bool)
      requires Valid() && probe in Model(agent).probes && Model(agent).probes[probe] == startedAt
      modifies `rows, `tracking
      ensures Valid() && OthersUnchanged(agent)
      ensures committed <==> !hasStore || (!(agent in invalidatedAt && startedAt <= invalidatedAt[agent]) && writable)
      ensures committed && hasStore ==> Shows(agent, d, now) && Seen(agent) == old(Seen(agent))
      ensures !(committed && hasStore) ==> rows == old(rows)
      ensures Model(agent)
              == Apply(old(Model(agent)), if hasStore then CheckAndSave(probe, d, writable) else DropProbe(probe))
    {
      if !hasStore {
        StepKeepsInv(Model(agent), DropProbe(probe));
        hide Inv;
        Track(agent, Apply(Model(agent), DropProbe(probe)));
        OneAgentMoved(agent);
        return true;
      }
      assert probe !in Model(agent).passed;
      hide Inv;
      var superseded := CheckSuperseded(agent, probe, startedAt);
      if superseded {
        return false;
      }
      committed := SaveFull(agent, probe, d, writable);
    }

    method StampInvalidation(agent: string, ghost kind: Kind)
      requires Valid()
      modifies `invalidatedAt, `tracking
      ensures Valid() && Model(agent) == Apply(old(Model(agent)), Stamp(kind)) && OthersUnchanged(agent)
      ensures invalidatedAt == old(invalidatedAt)[agent := now]
    {
      ghost var before := Model(agent);
      StepKeepsInv(before, Stamp(kind));
      hide Inv;
      invalidatedAt := invalidatedAt[agent := now];
      Track(agent, Apply(before, Stamp(kind)));
      OneAgentMoved(agent);
    }

    /** The store's half of an invalidation: an update of the row there is, or its deletion. Without a
        store it is a mark that finds no row. */
    method MarkRowInStore(agent: string, ghost number: nat, kind: Kind, writable: bool)
      requires Valid() && number in Model(agent).marking && Model(agent).marking[number] == kind
      requires hasStore || !writable
      modifies `rows, `tracking
      ensures Valid() && Model(agent) == Apply(old(Model(agent)), Mark(number, writable)) && OthersUnchanged(agent)
      ensures writable && kind.DeleteRow? ==> rows == old(rows) - {agent}
      ensures writable && kind.MarkStale? && agent in old(rows) ==>
                rows == old(rows)[agent := old(rows)[agent].(stale := true)]
      ensures !writable || (kind.MarkStale? && agent !in old(rows)) ==> rows == old(rows)
    {
      ghost var before := Model(agent);
      StepKeepsInv(before, Mark(number, writable));
      hide Inv;
      if writable {
        match kind {
          case MarkStale => if agent in rows { rows := rows[agent := rows[agent].(stale := true)]; }
          case DeleteRow => rows := rows - {agent};
        }
      }
      Track(agent, Apply(before, Mark(number, writable)));
      OneAgentMoved(agent);
    }

    method InvalidateAgent(agent: string, writable: bool)
      requires Valid()
      modifies `invalidatedAt, `rows, `tracking
      ensures Valid() && OthersUnchanged(agent)
      ensures Model(agent) == Apply(old(Model(agent)), StampAndMark(MarkStale, hasStore && writable))
      ensures invalidatedAt == old(invalidatedAt)[agent := now]
      ensures rows == if writable && agent in old(rows) then old(rows)[agent := old(rows)[agent].(stale := true)]
                      else old(rows)
    {
      hide Inv;
      ghost var number := Model(agent).stamps + 1;
      StampInvalidation(agent, MarkStale);
      MarkRowInStore(agent, number, MarkStale, hasStore && writable);
    }

    method ForgetAgent(agent: string, writable: bool)
      requires Valid()
      modifies `invalidatedAt, `rows, `tracking
      ensures Valid() && OthersUnchanged(agent)
      ensures Model(agent) == Apply(old(Model(agent)), StampAndMark(DeleteRow, hasStore && writable))
      ensures invalidatedAt == old(invalidatedAt)[agent := now]
      ensures rows == if writable then old(rows) - {agent} else old(rows)
    {
      hide Inv;
      ghost var number := Model(agent).stamps + 1;
      StampInvalidation(agent, DeleteRow);
      MarkRowInStore(agent, number, DeleteRow, hasStore && writable);
    }

    method CacheWriteObserved(agent: string, observed: string, writable: bool)
      requires Valid()
      modifies `rows, `tracking
      ensures Valid() && OthersUnchanged(agent)
      ensures Model(agent) == Apply(old(Model(agent)), Observe(observed, hasStore && writable))
      ensures hasStore && writable ==> agent in rows && Seen(agent) == (Some(observed), Some(now))
      ensures hasStore && writable && agent in old(rows) ==> SameDiscovery(rows[agent], old(rows)[agent])
      ensures hasStore && writable && agent !in old(rows) ==>
                rows[agent].methods == [] && !rows[agent].logout && rows[agent].checkedAt == None && !rows[agent].stale
      ensures !(hasStore && writable) ==> rows == old(rows)
    {
      ghost var before := Model(agent);
      StepKeepsInv(before, Observe(observed, hasStore && writable));
      hide Inv;
      if hasStore && writable {
        var row := if agent in rows then rows[agent] else Row([], false, None, false, None, None);
        rows := rows[agent := row.(observed := Some(observed), observedAt := Some(now))];
      }
      Track(agent, Apply(before, Observe(observed, hasStore && writable)));
      OneAgentMoved(agent);
    }
  }
}
