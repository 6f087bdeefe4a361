/**
 One agent's callback handler: the code of the permission protocol over its event log, step by
 step equal to the transitions of module Permissions.
 */
module CallbackHandlers {
  import opened Collections
  import opened Events
  import EventLogs
  import LogModel
  import P = Permissions

  class CallbackHandler {
    const owner: Owner
    const log: EventLogs.EventLog
    /** Each waiting ask with the option ids the agent offered. */
    var pending: map<string, set<string>>
    ghost var logged: set<string>
    ghost var asking: map<string, P.Ask>
    ghost var used: map<string, set<string>>
    ghost var answered: map<string, Option<string>>
    ghost var stray: set<string>

    ghost function Model(): P.State
      requires log.store != null
      reads this, log, log.store
    {
      P.State(log.store.rows, Asks(owner, pending, logged), asking, used, answered, stray)
    }

    ghost predicate Valid()
      reads this, log, log.store
    {
      log.store != null && log.Valid() && P.Inv(Model()) && forall id :: id in asking ==> asking[id].owner == owner
    }

    constructor (owner: Owner, log: EventLogs.EventLog)
      requires log.store != null && log.Valid()
      ensures this.owner == owner && this.log == log
      ensures Valid() && Model() == P.Start(log.store.rows)
    {
      this.owner := owner;
      this.log := log;
      pending, logged, asking, used, answered, stray := map[], {}, map[], map[], map[], {};
      new;
      P.StartInv(log.store.rows);
      assert Model() == P.Start(log.store.rows);
    }

    /** First half of an ask. A permission id is a fresh UUID: new here, and not open in the log. */
    method InsertAsk(id: string, options: set<string>)
      requires Valid() && P.IsFresh(Model(), id)
      modifies this
      ensures Valid() && Model() == P.Apply(old(Model()), P.AskInsert(id, owner, options))
      ensures pending == old(pending)[id := options] && answered == old(answered)
    {
      hide P.IdInv, LogModel.Inv, Fold;
      P.StepKeepsInv(Model(), P.AskInsert(id, owner, options));
      P.InvMaps(Model(), id);
      InsertInto(owner, pending, logged, id, options);
      pending := pending[id := options];
      logged := logged - {id};
      asking := asking[id := P.Ask(owner, options, false)];
      used := used[id := options];
    }

    /** Second half: the durable request, without which the ask is withdrawn. */
    method LogAsk(id: string, options: set<string>, writable: bool) returns (saved: bool)
      requires Valid() && id in asking && asking[id].options == options
      modifies this, log, log.store
      ensures Valid() && Model() == P.Apply(old(Model()), P.AskLog(id, saved, old(log.nextNum)))
      ensures var entry := Entry(owner.chat, owner.agent, PermissionRequest(id, options));
              && saved == old(log.Takes(entry, writable))
              && log.store.rows == old(log.store.rows) + if saved then [Event(old(log.nextNum), entry)] else []
      ensures pending == (if saved then old(pending) else old(pending) - {id}) && answered == old(answered)
    {
      hide P.IdInv, LogModel.Inv, LogModel.Apply, Fold;
      ghost var before, next := Model(), log.nextNum;
      P.InvMaps(before, id);
      var num := log.AppendAt(Entry(owner.chat, owner.agent, PermissionRequest(id, options)), writable);
      saved := num.Some?;
      P.StepKeepsInv(before, P.AskLog(id, saved, next));
      asking := asking - {id};
      if saved {
        if id in pending {
          MarkLogged(owner, pending, logged, id);
          logged := logged + {id};
        } else {
          stray := stray + {id};
        }
      } else {
        RemoveFrom(owner, pending, logged, id);
        pending := pending - {id};
      }
      assert Model() == P.Apply(before, P.AskLog(id, saved, next));
    }

    /** An ask no other step comes into. */
    method RequestUserPermission(id: string, options: set<string>, writable: bool) returns (saved: bool)
      requires Valid() && P.IsFresh(Model(), id)
      modifies this, log, log.store
      ensures Valid()
      ensures var entry := Entry(owner.chat, owner.agent, PermissionRequest(id, options));
              && saved == old(log.Takes(entry, writable))
              && log.store.rows == old(log.store.rows) + if saved then [Event(old(log.nextNum), entry)] else []
      ensures saved ==> pending == old(pending)[id := options]
      ensures saved ==> Model() == P.Apply(old(Model()), P.AskWhole(id, owner, options, old(log.nextNum)))
      ensures !saved ==> id !in pending && Model() == old(Model()).(used := old(used)[id := options])
    {
      hide LogModel.Inv, Fold;
      ghost var before := Model();
      P.InvMaps(before, id);
      InsertAsk(id, options);
      saved := LogAsk(id, options, writable);
      if !saved {
        assert asking == before.asking;
        assert Model().pending == before.pending;
      }
    }

    /** Answers a waiting ask. A wrong option or a failed append puts the ask back. `listening` is
        whether the requester still waits on its channel. */
    method RespondPermission(id: string, option: string, writable: bool, listening: bool)
      returns (sent: bool, ghost saved: bool)
      requires Valid()
      modifies this, log, log.store
      ensures Valid() && Model() == P.Apply(old(Model()), P.Respond(owner, id, option, saved, old(log.nextNum)))
      ensures var entry := Entry(owner.chat, owner.agent, PermissionResponse(id, Some(option)));
              && (saved <==> id in old(pending) && option in old(pending)[id] && old(log.Takes(entry, writable)))
              && log.store.rows == old(log.store.rows) + if saved then [Event(old(log.nextNum), entry)] else []
      ensures saved ==> answered == old(answered)[id := Some(option)] && pending == old(pending) - {id}
      ensures !saved ==> answered == old(answered) && pending == old(pending)
      ensures sent <==> saved && listening
    {
      hide P.IdInv, LogModel.Inv, LogModel.Apply, Fold;
      ghost var before, next := Model(), log.nextNum;
      if id !in pending {
        return false, false;
      }
      var options := pending[id];
      RemoveFrom(owner, pending, logged, id);
      pending := pending - {id};
      if option !in options {
        pending := pending[id := options];
        assert pending == old(pending);
        return false, false;
      }
      var num := log.AppendAt(Entry(owner.chat, owner.agent, PermissionResponse(id, Some(option))), writable);
      if num == None {
        pending := pending[id := options];
        assert pending == old(pending);
        return false, false;
      }
      P.StepKeepsInv(before, P.Respond(owner, id, option, true, next));
      answered := answered[id := Some(option)];
      return listening, true;
    }

    /** Answers every waiting ask with the cancelled outcome, whatever becomes of its append. */
    method CancelPendingPermissions(writable: nat -> bool) returns (ghost steps: seq<P.Action>)
      requires Valid()
      modifies this, log, log.store
      ensures Valid() && pending == map[] && Model() == P.Run(old(Model()), steps)
      ensures |steps| == |old(pending)| && forall a :: a in steps ==> a.Cancel? && a.owner == owner
      ensures forall id :: id in old(pending) ==> id in answered && answered[id] == None
      ensures forall id :: id !in old(pending) ==>
                (id in answered <==> id in old(answered)) && (id in answered ==> answered[id] == old(answered)[id])
    {
      hide P.Inv, P.Apply, LogModel.Inv, LogModel.Apply, Fold;
      steps := [];
      ghost var total := |pending|;
      var count := 0;
      while pending.Keys != {}
        invariant Valid() && Model() == P.Run(old(Model()), steps)
        invariant |steps| + |pending| == total && forall a :: a in steps ==> a.Cancel? && a.owner == owner
        invariant pending.Keys <= old(pending).Keys
        invariant forall id :: id in old(pending) ==> id in pending || (id in answered && answered[id] == None)
        invariant forall id :: id !in old(pending) ==>
                    (id in answered <==> id in old(answered)) && (id in answered ==> answered[id] == old(answered)[id])
        decreases |pending|
      {
        var id :| id in pending.Keys;
        ghost var before, waiting := Model(), pending;
        ghost var step := CancelOne(id, writable(count));
        SmallerMap(waiting, id);
        P.RunSnoc(old(Model()), steps, step);
        steps := steps + [step];
        count := count + 1;
      }
    }

    method CancelOne(id: string, writable: bool) returns (ghost step: P.Action)
      requires Valid() && id in pending
      modifies this, log, log.store
      ensures Valid() && Model() == P.Apply(old(Model()), step)
      ensures step.Cancel? && step.owner == owner && step.id == id
      ensures pending == old(pending) - {id} && answered == old(answered)[id := None]
      ensures var entry := Entry(owner.chat, owner.agent, PermissionResponse(id, None));
              log.store.rows == old(log.store.rows)
              + if old(log.Takes(entry, writable)) then [Event(old(log.nextNum), entry)] else []
    {
      hide P.IdInv, LogModel.Inv, LogModel.Apply, Fold;
      ghost var before, next := Model(), log.nextNum;
      RemoveFrom(owner, pending, logged, id);
      pending := pending - {id};
      var num := log.AppendAt(Entry(owner.chat, owner.agent, PermissionResponse(id, None)), writable);
      step := P.Cancel(owner, id, num.Some?, next);
      P.StepKeepsInv(before, step);
      answered := answered[id := None];
      if num == None && id in logged {
        stray := stray + {id};
      }
      assert Model() == P.Apply(before, step);
    }

    /** Another task appends to the log, of no permission known here. */
    method Beside(entry: Entry, writable: bool) returns (num: Option<nat>)
      requires Valid() && P.IsForeign(Model(), Event(log.nextNum, entry))
      modifies log, log.store
      ensures Valid()
      ensures Model() == if num.Some? then P.Apply(old(Model()), P.Elsewhere(Event(num.value, entry))) else old(Model())
    {
      hide P.Inv, LogModel.Inv, LogModel.Apply, Fold;
      ghost var before := Model();
      P.StepKeepsInv(before, P.Elsewhere(Event(log.nextNum, entry)));
      num := log.AppendAt(entry, writable);
    }

    /** Whatever another handler appends to the shared log, of its own ids, leaves this one valid. */
    twostate lemma StaysValidBeside(row: Event)
      requires old(Valid()) && unchanged(this) && log.Valid() && log.store != null
      requires log.store.rows == old(log.store.rows) || log.store.rows == old(log.store.rows) + [row]
      requires P.IsForeign(old(Model()), row)
      ensures Valid()
      ensures Model() == if log.store.rows == old(log.store.rows) then old(Model())
              else P.Apply(old(Model()), P.Elsewhere(row))
    {
      P.StepKeepsInv(old(Model()), P.Elsewhere(row));
    }
  }

  /** Two chats' handlers over one log: an answer in one leaves the other as it was. */
  method RespondBeside(mine: CallbackHandler, other: CallbackHandler, id: string, option: string, writable: bool,
                       listening: bool)
    returns (sent: bool, ghost saved: bool)
    requires mine != other && mine.log == other.log && mine.Valid() && other.Valid()
             && mine.used.Keys !! other.used.Keys
    modifies mine, mine.log, mine.log.store
    ensures mine.Valid() && other.Valid()
    ensures mine.Model() == P.Apply(old(mine.Model()), P.Respond(mine.owner, id, option, saved, old(mine.log.nextNum)))
    ensures other.Model() == old(other.Model()).(rows := mine.log.store.rows)
  {
    hide P.Inv, LogModel.Inv, Fold;
    P.InvMaps(mine.Model(), id);
    ghost var row := P.Row(mine.log.nextNum, mine.owner, PermissionResponse(id, Some(option)));
    sent, saved := mine.RespondPermission(id, option, writable, listening);
    if mine.log.store.rows == old(mine.log.store.rows) {
      other.StaysValidBeside(Event(0, Entry("", "", Other(""))));
    } else {
      assert id in mine.used.Keys;
      other.StaysValidBeside(row);
    }
  }

  // ------------------------------------------------------------ the handler's map as asks

  function Asks(owner: Owner, pending: map<string, set<string>>, logged: set<string>): map<string, P.Ask> {
    map id | id in pending :: P.Ask(owner, pending[id], id in logged)
  }

  lemma InsertInto(owner: Owner, pending: map<string, set<string>>, logged: set<string>, id: string,
                   options: set<string>)
    ensures Asks(owner, pending[id := options], logged - {id})
            == Asks(owner, pending, logged)[id := P.Ask(owner, options, false)]
  {
  }

  lemma MarkLogged(owner: Owner, pending: map<string, set<string>>, logged: set<string>, id: string)
    requires id in pending
    ensures Asks(owner, pending, logged + {id}) == Asks(owner, pending, logged)[id := P.Ask(owner, pending[id], true)]
  {
  }

  lemma RemoveFrom(owner: Owner, pending: map<string, set<string>>, logged: set<string>, id: string)
    ensures Asks(owner, pending - {id}, logged) == Asks(owner, pending, logged) - {id}
  {
  }
}
