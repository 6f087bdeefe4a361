/**
 What becomes of an ask: in every run of module Permissions, the outcome its requester is sent and the
 answer its log shows are the choice that was made.
 */
module PermissionOutcomes {
  import opened Collections
  import opened Events
  import opened Permissions

  /** The step that gives an ask its outcome: the saved choice of an option it advertised, or its cancelling. */
  predicate Settles(s: State, a: Action, id: string, outcome: Option<string>) {
    match outcome
    case Some(option) =>
      a.Respond? && a.id == id && a.option == option && a.saved
      && Waits(s, a.owner, id) && option in s.pending[id].options
    case None => a.Cancel? && a.id == id && Waits(s, a.owner, id)
  }

  predicate SettlesIn(s: State, actions: seq<Action>, id: string, outcome: Option<string>)
    decreases |actions|
  {
    actions != []
    && (Settles(s, actions[0], id, outcome) || SettlesIn(Apply(s, actions[0]), actions[1..], id, outcome))
  }

  predicate HasOutcome(s: State, id: string, outcome: Option<string>) {
    id in s.answered && s.answered[id] == outcome
  }

  lemma OutcomeStep(s: State, a: Action, id: string, outcome: Option<string>)
    requires Inv(s)
    ensures HasOutcome(Apply(s, a), id, outcome) <==> HasOutcome(s, id, outcome) || Settles(s, a, id, outcome)
  {
    assert IdInv(s, id);
  }

  lemma {:induction false} OutcomesGrow(s: State, actions: seq<Action>, id: string, outcome: Option<string>)
    requires Inv(s)
    ensures HasOutcome(Run(s, actions), id, outcome) <==>
              HasOutcome(s, id, outcome) || SettlesIn(s, actions, id, outcome)
    decreases |actions|
  {
    hide Inv, Apply, Settles, HasOutcome;
    if actions != [] {
      StepKeepsInv(s, actions[0]);
      OutcomeStep(s, actions[0], id, outcome);
      OutcomesGrow(Apply(s, actions[0]), actions[1..], id, outcome);
    }
  }

  /** In every run a requester is sent an option exactly when that very option was chosen while its ask
      waited with the option advertised and the choice was saved, and cancelled exactly when its ask was
      cancelled while it waited. */
  lemma OutcomeIsTheChoice(rows: seq<Event>, actions: seq<Action>, id: string, outcome: Option<string>)
    ensures HasOutcome(Run(Start(rows), actions), id, outcome) <==> SettlesIn(Start(rows), actions, id, outcome)
  {
    StartInv(rows);
    OutcomesGrow(Start(rows), actions, id, outcome);
  }

  lemma LoggedStep(s: State, a: Action, id: string, option: string)
    requires id in s.used
    ensures id in Apply(s, a).used
    ensures AnswerLogged(Apply(s, a).rows, id, option) <==>
              AnswerLogged(s.rows, id, option) || Settles(s, a, id, Some(option))
  {
    var s' := Apply(s, a);
    if s'.rows != s.rows {
      var e := s'.rows[|s.rows|];
      assert s'.rows == s.rows + [e];
      assert SaysAnswer(e, id, option) <==> Settles(s, a, id, Some(option));
      hide Apply, Settles, SaysAnswer;
      LoggedByOneMore(s.rows, e, id, option);
    }
  }

  lemma LoggedByOneMore(rows: seq<Event>, e: Event, id: string, option: string)
    ensures AnswerLogged(rows + [e], id, option) <==> AnswerLogged(rows, id, option) || SaysAnswer(e, id, option)
  {
    hide SaysAnswer;
    if AnswerLogged(rows, id, option) || SaysAnswer(e, id, option) {
      AnswerStaysLogged(rows, e, id, option);
    }
    if i :| 0 <= i < |rows + [e]| && SaysAnswer((rows + [e])[i], id, option) {
      assert i < |rows| ==> (rows + [e])[i] == rows[i];
    }
  }

  /** And the log says so exactly then: from an id's first use on, no other answer to it is logged. */
  lemma {:induction false} LoggedIsTheChoice(s: State, actions: seq<Action>, id: string, option: string)
    requires id in s.used
    ensures AnswerLogged(Run(s, actions).rows, id, option) <==>
              AnswerLogged(s.rows, id, option) || SettlesIn(s, actions, id, Some(option))
    decreases |actions|
  {
    hide Apply, Settles, AnswerLogged;
    if actions != [] {
      LoggedStep(s, actions[0], id, option);
      LoggedIsTheChoice(Apply(s, actions[0]), actions[1..], id, option);
    }
  }
}
