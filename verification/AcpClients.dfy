/**
 The client side of one agent connection: the sections of dispatch, timeout, response handling and
 teardown, each equal to its transition in module Correlation.
 */
module AcpClients {
  import opened Correlation

  class AcpClient {
    var connected: bool
    var writerOpen: bool
    var nextId: int
    /** The ids whose response sender is in the pending map. */
    var pending: set<int>
    /** The response channels that hold a value. */
    var sent: map<int, Outcome>
    /** Where each request's dispatcher is. */
    var phases: map<int, Phase>
    ghost var entered: nat
    ghost var received: seq<Response>
    ghost var drained: bool

    ghost function Model(): State
      reads this
    {
      State(connected, writerOpen, nextId, entered, phases, pending, sent, received, drained)
    }

    ghost predicate Valid()
      reads this
    {
      Inv(Model())
    }

    constructor ()
      ensures Valid() && Model() == Fresh()
    {
      connected, writerOpen, nextId, pending, sent, phases := true, true, 1, {}, map[], map[];
      entered, received, drained := 0, [], false;
      new;
      FreshInv();
      assert Model() == Fresh();
    }

    method Enter() returns (open: bool)
      requires Valid()
      modifies `entered
      ensures Valid() && open == connected && Model() == Apply(old(Model()), Action.Enter)
      ensures entered == old(entered) + if open then 1 else 0
    {
      StepKeepsInv(Model(), Action.Enter);
      if connected {
        entered := entered + 1;
      }
      return connected;
    }

    /** `next_id.fetch_add(1)`. */
    method Allocate() returns (id: int)
      requires Valid() && entered > 0
      modifies `nextId, `phases, `entered
      ensures Valid() && id == old(nextId) && Model() == Apply(old(Model()), Action.Allocate)
      ensures nextId == old(nextId) + 1 && phases == old(phases)[id := Allocated] && entered == old(entered) - 1
    {
      StepKeepsInv(Model(), Action.Allocate);
      id := nextId;
      phases := phases[id := Allocated];
      nextId := nextId + 1;
      entered := entered - 1;
    }

    method InsertPending(id: int)
      requires Valid() && At(Model(), id, Allocated)
      modifies `pending, `phases
      ensures Valid() && Model() == Apply(old(Model()), Insert(id))
      ensures pending == old(pending) + {id} && phases == old(phases)[id := Inserted]
    {
      StepKeepsInv(Model(), Insert(id));
      pending := pending + {id};
      phases := phases[id := Inserted];
    }

    method Recheck(id: int) returns (open: bool)
      requires Valid() && At(Model(), id, Inserted)
      modifies `phases
      ensures Valid() && open == connected && Model() == Apply(old(Model()), Action.Recheck(id))
      ensures phases == old(phases)[id := if open then Queueing else Rejecting]
    {
      StepKeepsInv(Model(), Action.Recheck(id));
      phases := phases[id := if connected then Queueing else Rejecting];
      return connected;
    }

    method Reject(id: int)
      requires Valid() && At(Model(), id, Rejecting)
      modifies `pending, `sent, `phases
      ensures Valid() && Model() == Apply(old(Model()), Action.Reject(id))
      ensures pending == old(pending) - {id} && phases == old(phases)[id := Finished(Refused)]
      ensures sent == if id in old(pending) then old(sent)[id := Closed] else old(sent)
    {
      StepKeepsInv(Model(), Action.Reject(id));
      hide Inv;
      if id in pending {
        pending := pending - {id};
        sent := sent[id := Closed];
      }
      phases := phases[id := Finished(Refused)];
      assert Model() == Apply(old(Model()), Action.Reject(id));
    }

    /** Hands the line to the writer task, whose receiver may be gone. */
    method Enqueue(id: int) returns (ok: bool)
      requires Valid() && At(Model(), id, Queueing)
      modifies `phases
      ensures Valid() && ok == writerOpen && Model() == Apply(old(Model()), Action.Enqueue(id))
      ensures phases == old(phases)[id := if ok then Waiting else WriterGone]
    {
      StepKeepsInv(Model(), Action.Enqueue(id));
      phases := phases[id := if writerOpen then Waiting else WriterGone];
      return writerOpen;
    }

    method RemoveUnwritten(id: int)
      requires Valid() && At(Model(), id, WriterGone)
      modifies `pending, `phases
      ensures Valid() && Model() == Apply(old(Model()), Action.RemoveUnwritten(id))
      ensures pending == old(pending) - {id} && phases == old(phases)[id := Finished(Unwritten)]
    {
      StepKeepsInv(Model(), Action.RemoveUnwritten(id));
      pending := pending - {id};
      phases := phases[id := Finished(Unwritten)];
    }

    /** A dispatch nothing else comes into: a waiting request when the connection is open, and no
        trace otherwise. The writer's receiver outlives `connected`, so the line is always accepted. */
    method DispatchRequest() returns (id: int, waiting: bool)
      requires Valid()
      modifies `nextId, `phases, `entered, `pending
      ensures Valid()
      ensures waiting == old(connected)
      ensures waiting ==>
                id == old(nextId) && id !in old(phases) && At(Model(), id, Waiting) && pending == old(pending) + {id}
      ensures !waiting ==> Model() == old(Model())
      ensures forall other :: other in old(phases) ==> other in phases && phases[other] == old(phases)[other]
    {
      Fresher(Model());
      hide Inv, Apply;
      var open := Enter();
      if !open {
        return 0, false;
      }
      id := DispatchOpen();
      return id, true;
    }

    /** The rest of that dispatch, the connection staying open. */
    method DispatchOpen() returns (id: int)
      requires Valid() && connected && writerOpen && entered > 0 && nextId !in phases
      modifies `nextId, `phases, `entered, `pending
      ensures Valid() && id == old(nextId) && entered == old(entered) - 1
      ensures phases == old(phases)[id := Waiting] && pending == old(pending) + {id}
    {
      hide Inv, Apply;
      id := Allocate();
      InsertPending(id);
      var open := Recheck(id);
      assert open;
      var ok := Enqueue(id);
      assert ok;
    }

    /** The deadline passed and the receiver is dropped; the entry goes next. */
    method RemoveTimedOut(id: int)
      requires Valid() && At(Model(), id, TimedOut)
      modifies `pending, `phases
      ensures Valid() && Model() == Apply(old(Model()), Action.RemoveTimedOut(id))
      ensures pending == old(pending) - {id} && phases == old(phases)[id := Finished(Expired)]
    {
      StepKeepsInv(Model(), Action.RemoveTimedOut(id));
      pending := pending - {id};
      phases := phases[id := Finished(Expired)];
    }

    /** The receiving half of the request's channel is gone. */
    predicate GivenUp(id: int)
      reads this
    {
      id in phases && (phases[id].TimedOut? || phases[id].Abandoned? || phases[id].Finished?)
    }

    /** The reader's response section. */
    method HandleResponse(response: Response)
      requires Valid()
      modifies `pending, `sent, `received
      ensures Valid() && Model() == Apply(old(Model()), Receive(response))
      ensures received == old(received) + [response]
      ensures response.id.Text? ==> pending == old(pending) && sent == old(sent)
      ensures response.id.Number? ==>
                var n := response.id.n;
                var resolved := n in old(pending) && !GivenUp(n);
                && sent == (if resolved then old(sent)[n := response.outcome] else old(sent))
                && forall id :: id in pending <==> id in old(pending) && !GivenUp(id) && id != n
    {
      ghost var before := Model();
      StepKeepsInv(before, Receive(response));
      hide Inv, Apply, Resolve;
      received := received + [response];
      if response.id.Text? {
        UnnumberedEffect(before, response);
        return;
      }
      SweepClosed();
      NumberedEffect(before, response, pending);
      if response.id.n in pending {
        sent := sent[response.id.n := response.outcome];
      }
      pending := pending - {response.id.n};
    }

    method SweepClosed()
      modifies `pending
      ensures forall id :: id in pending <==> id in old(pending) && !GivenUp(id)
    {
      pending := set id | id in pending && !GivenUp(id);
    }

    /** Resolves every pending request with the closing error. */
    method FailPendingRequests()
      requires Valid() && !connected
      modifies `pending, `sent, `drained
      ensures Valid() && Model() == Apply(old(Model()), FailPending)
      ensures pending == {} && drained
      ensures forall id :: id in old(pending) ==> id in sent && sent[id] == Closed
      ensures forall id :: id !in old(pending) ==>
                (id in sent <==> id in old(sent)) && (id in sent ==> sent[id] == old(sent)[id])
    {
      StepKeepsInv(Model(), FailPending);
      hide Inv, FailAll, Apply;
      var left := pending;
      while left != {}
        invariant FailAll(sent, left) == FailAll(old(sent), old(pending))
        decreases left
        modifies `sent
      {
        SomeMember(left);
        var id :| id in left;
        FailOne(sent, left, id);
        left := left - {id};
        sent := sent[id := Closed];
      }
      FailNone(sent);
      pending := {};
      drained := true;
      FailPendingEffect(old(Model()));
    }
  }

  lemma UnnumberedEffect(s: State, response: Response)
    requires response.id.Text?
    ensures Apply(s, Receive(response)) == s.(received := s.received + [response])
  {
  }

  lemma NumberedEffect(s: State, response: Response, live: set<int>)
    requires response.id.Number? && forall id :: id in live <==> id in s.pending && !HungUp(s, id)
    ensures Apply(s, Receive(response)) ==
              s.(received := s.received + [response], pending := live - {response.id.n},
                 sent := if response.id.n in live then s.sent[response.id.n := response.outcome] else s.sent)
  {
    var listening := set id | id in s.pending && !HungUp(s, id);
    hide HungUp;
    forall id
      ensures id in live <==> id in listening
    {
    }
    assert live == listening;
  }

  lemma FailOne(sent: map<int, Outcome>, left: set<int>, id: int)
    requires id in left
    ensures FailAll(sent[id := Closed], left - {id}) == FailAll(sent, left)
  {
  }

  lemma SomeMember(left: set<int>)
    requires left != {}
    ensures exists id :: id in left
  {
    assert (forall id :: id !in left) ==> left == {};
  }

  lemma FailNone(sent: map<int, Outcome>)
    ensures FailAll(sent, {}) == sent
  {
  }

  lemma FailPendingEffect(s: State)
    requires !s.connected
    ensures Apply(s, FailPending) == s.(pending := {}, sent := FailAll(s.sent, s.pending), drained := true)
    ensures var sent := FailAll(s.sent, s.pending);
            && (forall id :: id in s.pending ==> id in sent && sent[id] == Closed)
            && forall id :: id !in s.pending ==>
                 (id in sent <==> id in s.sent) && (id in sent ==> sent[id] == s.sent[id])
  {
  }

  lemma Fresher(s: State)
    requires Inv(s)
    ensures s.nextId !in s.phases && s.nextId !in s.pending
  {
    assert IdInv(s, s.nextId);
  }
}
