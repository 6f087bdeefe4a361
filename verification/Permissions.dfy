/**
 The permission protocol: asking, answering and cancelling over one pending map per chat, against
 what the recovery fold reads back from the log.

 The asks are those of one handler, or of several taken together, each carrying its owner; the log is
 shared with every other chat. Permission ids are fresh UUIDs. An ask is two steps in the code, the
 insert and the logged request; other steps can come between them.
 */
module Permissions {
  import opened Collections
  import opened Events

  datatype Ask = Ask(owner: Owner, options: set<string>, logged: bool)

  /** `asking` holds the asks between insert and log, `answered` what each requester was sent, and
      `stray` the ids the log leaves open although nobody waits for them. */
  datatype State = State(
    rows: seq<Event>,
    pending: map<string, Ask>,
    asking: map<string, Ask>,
    used: map<string, set<string>>,
    answered: map<string, Option<string>>,
    stray: set<string>)

  /** Steps that append carry the number the log gives the row. */
  datatype Action =
    | AskInsert(id: string, owner: Owner, options: set<string>)
    | AskLog(id: string, saved: bool, num: nat)
    | AskWhole(id: string, owner: Owner, options: set<string>, num: nat)
    | Respond(owner: Owner, id: string, option: string, saved: bool, num: nat)
    | Cancel(owner: Owner, id: string, saved: bool, num: nat)
    | Elsewhere(row: Event)

  function Row(num: nat, owner: Owner, payload: Payload): Event {
    Event(num, Entry(owner.chat, owner.agent, payload))
  }

  function Insert(s: State, id: string, owner: Owner, options: set<string>): State {
    var ask := Ask(owner, options, false);
    s.(pending := s.pending[id := ask], asking := s.asking[id := ask], used := s.used[id := options])
  }

  function LogAsk(s: State, id: string, saved: bool, num: nat): State
    requires id in s.asking
  {
    var ask := s.asking[id];
    if !saved then s.(pending := s.pending - {id}, asking := s.asking - {id})
    else s.(rows := s.rows + [Row(num, ask.owner, PermissionRequest(id, ask.options))],
            asking := s.asking - {id},
            pending := if id in s.pending then s.pending[id := ask.(logged := true)] else s.pending,
            stray := if id in s.pending then s.stray else s.stray + {id})
  }

  function Answer(s: State, owner: Owner, id: string, option: string, num: nat): State {
    s.(rows := s.rows + [Row(num, owner, PermissionResponse(id, Some(option)))],
       pending := s.pending - {id},
       answered := s.answered[id := Some(option)])
  }

  function Drop(s: State, owner: Owner, id: string, saved: bool, num: nat): State
    requires id in s.pending
  {
    s.(rows := if saved then s.rows + [Row(num, owner, PermissionResponse(id, None))] else s.rows,
       pending := s.pending - {id},
       answered := s.answered[id := None],
       stray := if !saved && s.pending[id].logged then s.stray + {id} else s.stray)
  }

  predicate Waits(s: State, owner: Owner, id: string) {
    id in s.pending && s.pending[id].owner == owner
  }

  /** Never used here, and not open in the log. */
  predicate IsFresh(s: State, id: string) {
    id !in s.used && id !in Fold(s.rows).permissions
  }

  predicate SpeaksOfPermission(e: Event, id: string) {
    AsksPermission(e, id) || AnswersPermission(e, id)
  }

  /** A row of another chat, or one that is no permission row: it speaks of no id used here. */
  predicate IsForeign(s: State, row: Event) {
    var p := row.entry.payload;
    p.PermissionRequest? || p.PermissionResponse? ==> p.id !in s.used
  }

  /** A step whose guard fails leaves the state as it is. */
  function Apply(s: State, a: Action): State {
    match a
    case AskInsert(id, owner, options) => if IsFresh(s, id) then Insert(s, id, owner, options) else s
    case AskLog(id, saved, num) => if id in s.asking then LogAsk(s, id, saved, num) else s
    case AskWhole(id, owner, options, num) =>
      if IsFresh(s, id) then LogAsk(Insert(s, id, owner, options), id, true, num) else s
    case Respond(owner, id, option, saved, num) =>
      if Waits(s, owner, id) && option in s.pending[id].options && saved then Answer(s, owner, id, option, num) else s
    case Cancel(owner, id, saved, num) => if Waits(s, owner, id) then Drop(s, owner, id, saved, num) else s
    case Elsewhere(row) => if IsForeign(s, row) then s.(rows := s.rows + [row]) else s
  }

  function Run(s: State, actions: seq<Action>): State
    decreases |actions|
  {
    if actions == [] then s else Run(Apply(s, actions[0]), actions[1..])
  }

  /** A handler starts over whatever log there is. */
  function Start(rows: seq<Event>): State {
    State(rows, map[], map[], map[], map[], {})
  }

  // ------------------------------------------------------------ invariant

  predicate SaysAnswer(e: Event, id: string, option: string) {
    e.entry.payload == PermissionResponse(id, Some(option))
  }

  predicate AnswerLogged(rows: seq<Event>, id: string, option: string) {
    exists i :: 0 <= i < |rows| && SaysAnswer(rows[i], id, option)
  }

  /** Between the log and the maps: an id is open in the log when its logged ask still waits, or it is stray. */
  predicate LogAgrees(s: State, id: string) {
    var open := Fold(s.rows).permissions;
    && (id in open <==> (id in s.pending && s.pending[id].logged) || id in s.stray)
    && (id in s.pending && s.pending[id].logged ==> open[id] == s.pending[id].owner)
  }

  /** Among the maps. */
  predicate MapsAgree(s: State, id: string) {
    && (id in s.pending ==> id in s.used && s.used[id] == s.pending[id].options && id !in s.answered && id !in s.stray)
    && (id in s.pending && !s.pending[id].logged ==> id in s.asking && s.asking[id] == s.pending[id])
    && (id in s.asking ==> id in s.used && !s.asking[id].logged && id !in s.stray)
    && (id in s.asking && id in s.pending ==> !s.pending[id].logged)
    && (id in s.answered ==> id in s.used)
    && (id in s.stray ==> id in s.used)
  }

  /** What was delivered had been advertised and is in the log. */
  predicate Delivered(s: State, id: string) {
    id in s.answered && s.answered[id].Some? ==>
      id in s.used && s.answered[id].value in s.used[id] && AnswerLogged(s.rows, id, s.answered[id].value)
  }

  predicate IdInv(s: State, id: string) {
    (id in s.used ==> LogAgrees(s, id)) && MapsAgree(s, id) && Delivered(s, id)
  }

  ghost predicate Inv(s: State) {
    forall id :: IdInv(s, id)
  }

  lemma FoldRow(s: State, e: Event)
    ensures Fold(s.rows + [e]) == Observe(Fold(s.rows), e.entry)
  {
    FoldStep(s.rows, e);
  }

  lemma AnswerStaysLogged(rows: seq<Event>, e: Event, id: string, option: string)
    requires AnswerLogged(rows, id, option) || SaysAnswer(e, id, option)
    ensures AnswerLogged(rows + [e], id, option)
  {
    if AnswerLogged(rows, id, option) {
      var i :| 0 <= i < |rows| && SaysAnswer(rows[i], id, option);
      assert (rows + [e])[i] == rows[i];
    } else {
      assert (rows + [e])[|rows|] == e;
    }
  }

  /** One more row keeps what was delivered in the log. */
  lemma DeliveredStays(s: State, s': State, e: Event, id: string)
    requires Delivered(s, id) && (s'.rows == s.rows || s'.rows == s.rows + [e])
    requires id in s'.answered ==> id in s.answered && s'.answered[id] == s.answered[id]
    requires id in s.used ==> id in s'.used && s'.used[id] == s.used[id]
    ensures Delivered(s', id)
  {
    if id in s'.answered && s'.answered[id].Some? {
      AnswerStaysLogged(s.rows, e, id, s.answered[id].value);
    }
  }

  lemma InsertKeepsInv(s: State, id: string, owner: Owner, options: set<string>)
    requires Inv(s) && IsFresh(s, id)
    ensures Inv(Insert(s, id, owner, options))
  {
    var s' := Insert(s, id, owner, options);
    forall x
      ensures IdInv(s', x)
    {
      assert IdInv(s, x);
    }
  }

  lemma LogAskKeepsAgreement(s: State, id: string, saved: bool, num: nat, x: string)
    requires id in s.asking && LogAgrees(s, x) && MapsAgree(s, x)
    ensures LogAgrees(LogAsk(s, id, saved, num), x)
  {
    var ask := s.asking[id];
    AskOpens(s.rows, num, ask.owner, id, ask.options, x);
    hide Fold, Row;
    var s' := LogAsk(s, id, saved, num);
    assert s'.rows == s.rows || s'.rows == s.rows + [Row(num, ask.owner, PermissionRequest(id, ask.options))];
    if x != id {
      assert x in s'.pending <==> x in s.pending;
      assert x in s'.stray <==> x in s.stray;
    }
  }

  /** A logged request opens its id for its owner and leaves every other id as it was. */
  lemma AskOpens(rows: seq<Event>, num: nat, owner: Owner, id: string, options: set<string>, x: string)
    ensures var before := Fold(rows).permissions;
            var after := Fold(rows + [Row(num, owner, PermissionRequest(id, options))]).permissions;
            && (x in after <==> x == id || x in before)
            && (x in after ==> after[x] == if x == id then owner else before[x])
  {
    FoldStep(rows, Row(num, owner, PermissionRequest(id, options)));
  }

  lemma LogAskKeepsMaps(s: State, id: string, saved: bool, num: nat, x: string)
    requires id in s.asking && MapsAgree(s, x)
    ensures MapsAgree(LogAsk(s, id, saved, num), x)
  {
  }

  lemma LogAskKeepsId(s: State, id: string, saved: bool, num: nat, x: string)
    requires id in s.asking && IdInv(s, x)
    ensures IdInv(LogAsk(s, id, saved, num), x)
  {
    if x in s.used {
      LogAskKeepsAgreement(s, id, saved, num, x);
    }
    LogAskKeepsMaps(s, id, saved, num, x);
    var e := Row(num, s.asking[id].owner, PermissionRequest(id, s.asking[id].options));
    assert LogAsk(s, id, saved, num).rows == s.rows || LogAsk(s, id, saved, num).rows == s.rows + [e];
    hide LogAgrees, MapsAgree, Delivered;
    DeliveredStays(s, LogAsk(s, id, saved, num), e, x);
  }

  lemma LogAskKeepsInv(s: State, id: string, saved: bool, num: nat)
    requires Inv(s) && id in s.asking
    ensures Inv(LogAsk(s, id, saved, num))
  {
    hide IdInv;
    forall x
      ensures IdInv(LogAsk(s, id, saved, num), x)
    {
      LogAskKeepsId(s, id, saved, num, x);
    }
  }

  lemma AnswerKeepsInv(s: State, owner: Owner, id: string, option: string, num: nat)
    requires Inv(s) && Waits(s, owner, id) && option in s.pending[id].options
    ensures Inv(Answer(s, owner, id, option, num))
  {
    var e := Row(num, owner, PermissionResponse(id, Some(option)));
    FoldRow(s, e);
    var s' := Answer(s, owner, id, option, num);
    hide Fold, AnswerLogged;
    forall x
      ensures IdInv(s', x)
    {
      assert IdInv(s, x);
      if x == id {
        AnswerStaysLogged(s.rows, e, id, option);
      } else {
        DeliveredStays(s, s', e, x);
      }
    }
  }

  lemma DropKeepsInv(s: State, owner: Owner, id: string, saved: bool, num: nat)
    requires Inv(s) && Waits(s, owner, id)
    ensures Inv(Drop(s, owner, id, saved, num))
  {
    hide IdInv;
    forall x
      ensures IdInv(Drop(s, owner, id, saved, num), x)
    {
      assert IdInv(s, x) && IdInv(s, id);
      DropKeepsId(s, owner, id, saved, num, x);
    }
  }

  lemma DropKeepsId(s: State, owner: Owner, id: string, saved: bool, num: nat, x: string)
    requires IdInv(s, x) && IdInv(s, id) && Waits(s, owner, id)
    ensures IdInv(Drop(s, owner, id, saved, num), x)
  {
    var e := Row(num, owner, PermissionResponse(id, None));
    FoldRow(s, e);
    hide Fold, AnswerLogged;
    if x != id {
      DeliveredStays(s, Drop(s, owner, id, saved, num), e, x);
    }
  }

  /** A row that does not speak of an id leaves it as it was in the log. */
  lemma ForeignRowKeeps(rows: seq<Event>, row: Event, x: string)
    requires !SpeaksOfPermission(row, x)
    ensures var before, after := Fold(rows).permissions, Fold(rows + [row]).permissions;
            (x in after <==> x in before) && (x in before ==> after[x] == before[x])
  {
    FoldStep(rows, row);
  }

  lemma ElsewhereKeepsInv(s: State, row: Event)
    requires Inv(s)
    ensures Inv(Apply(s, Elsewhere(row)))
  {
    var s' := Apply(s, Elsewhere(row));
    if IsForeign(s, row) {
      forall x
        ensures IdInv(s', x)
      {
        assert IdInv(s, x);
        if x in s.used {
          ForeignRowKeeps(s.rows, row, x);
        }
        hide Fold, AnswerLogged;
        DeliveredStays(s, s', row, x);
      }
    }
  }

  lemma StepKeepsInv(s: State, a: Action)
    requires Inv(s)
    ensures Inv(Apply(s, a))
  {
    hide Inv;
    match a
    case AskInsert(id, owner, options) =>
      if IsFresh(s, id) { InsertKeepsInv(s, id, owner, options); }
    case AskLog(id, saved, num) =>
      if id in s.asking { LogAskKeepsInv(s, id, saved, num); }
    case AskWhole(id, owner, options, num) =>
      if IsFresh(s, id) {
        InsertKeepsInv(s, id, owner, options);
        LogAskKeepsInv(Insert(s, id, owner, options), id, true, num);
      }
    case Respond(owner, id, option, saved, num) =>
      if Waits(s, owner, id) && option in s.pending[id].options && saved { AnswerKeepsInv(s, owner, id, option, num); }
    case Cancel(owner, id, saved, num) =>
      if Waits(s, owner, id) { DropKeepsInv(s, owner, id, saved, num); }
    case Elsewhere(row) => ElsewhereKeepsInv(s, row);
  }

  lemma StartInv(rows: seq<Event>)
    ensures Inv(Start(rows))
  {
    forall id
      ensures IdInv(Start(rows), id)
    {
    }
  }

  lemma {:induction false} RunKeepsInv(s: State, actions: seq<Action>)
    requires Inv(s)
    ensures Inv(Run(s, actions))
    decreases |actions|
  {
    hide Inv, Apply;
    if actions != [] {
      StepKeepsInv(s, actions[0]);
      RunKeepsInv(Apply(s, actions[0]), actions[1..]);
    }
  }

  lemma InvMaps(s: State, id: string)
    requires Inv(s)
    ensures MapsAgree(s, id)
  {
    assert IdInv(s, id);
  }

  lemma {:induction false} RunSnoc(s: State, actions: seq<Action>, a: Action)
    ensures Run(s, actions + [a]) == Apply(Run(s, actions), a)
    decreases |actions|
  {
    if actions == [] {
      assert actions + [a] == [a] && [a][1..] == [];
      assert Run(s, [a]) == Run(Apply(s, a), []);
    } else {
      assert (actions + [a])[0] == actions[0] && (actions + [a])[1..] == actions[1..] + [a];
      RunSnoc(Apply(s, actions[0]), actions[1..], a);
    }
  }

  // ------------------------------------------------------------ results over every run

  predicate AnswerFixed(s: State, s': State, id: string) {
    id in s.answered ==> id in s'.answered && s'.answered[id] == s.answered[id]
  }

  lemma StepFixesAnswers(s: State, a: Action, id: string)
    requires Inv(s)
    ensures AnswerFixed(s, Apply(s, a), id)
  {
    assert IdInv(s, id);
  }

  /** Each id is answered at most once: an answer given is the answer at the end of every run, and
      its ask waits no longer. */
  lemma {:induction false} AnsweredOnce(s: State, actions: seq<Action>, id: string)
    requires Inv(s) && id in s.answered
    ensures id in Run(s, actions).answered && Run(s, actions).answered[id] == s.answered[id]
    ensures id !in Run(s, actions).pending
    decreases |actions|
  {
    assert IdInv(s, id);
    if actions != [] {
      StepKeepsInv(s, actions[0]);
      StepFixesAnswers(s, actions[0], id);
      AnsweredOnce(Apply(s, actions[0]), actions[1..], id);
    }
  }

  /** In every run, split asks and failed appends included: a delivered option was advertised and
      its answer is in the log. */
  lemma DeliveredWasAdvertisedAndLogged(rows: seq<Event>, actions: seq<Action>, id: string)
    requires id in Run(Start(rows), actions).answered && Run(Start(rows), actions).answered[id].Some?
    ensures var s := Run(Start(rows), actions);
            id in s.used && s.answered[id].value in s.used[id] && AnswerLogged(s.rows, id, s.answered[id].value)
  {
    StartInv(rows);
    RunKeepsInv(Start(rows), actions);
    assert IdInv(Run(Start(rows), actions), id);
  }

  ghost predicate Agreement(s: State) {
    s.stray == {} && forall id :: id in s.pending ==> s.pending[id].logged
  }

  /** Of the ids used here, those the recovery fold leaves open. */
  function OpenHere(s: State): set<string> {
    set id | id in s.used && id in Fold(s.rows).permissions
  }

  lemma AgreementIsExact(s: State)
    requires Inv(s)
    ensures OpenHere(s) == s.pending.Keys <==> Agreement(s)
    ensures forall id :: id in s.pending && id in Fold(s.rows).permissions ==>
              Fold(s.rows).permissions[id] == s.pending[id].owner
  {
    var open := Fold(s.rows).permissions;
    forall id
      ensures MapsAgree(s, id) && (id in s.used ==> LogAgrees(s, id))
    {
      assert IdInv(s, id);
    }
    hide Fold;
    forall id | id in s.pending && id in open
      ensures open[id] == s.pending[id].owner
    {
      assert MapsAgree(s, id) && LogAgrees(s, id);
    }
    if Agreement(s) {
      forall id
        ensures id in OpenHere(s) <==> id in s.pending.Keys
      {
        assert MapsAgree(s, id) && (id in s.used ==> LogAgrees(s, id));
      }
    } else if s.stray != {} {
      var id :| id in s.stray;
      assert MapsAgree(s, id) && LogAgrees(s, id) && id in OpenHere(s) && id !in s.pending.Keys;
    } else {
      var id :| id in s.pending && !s.pending[id].logged;
      assert MapsAgree(s, id) && LogAgrees(s, id) && id !in OpenHere(s) && id in s.pending.Keys;
    }
  }

  /** The two steps that part the log from the map: a request logged for an ask already taken out, and a
      cancel of a logged ask whose answer is not saved. */
  predicate Parts(s: State, a: Action, id: string) {
    || (a.AskLog? && a.id == id && a.saved && id in s.asking && id !in s.pending)
    || (a.Cancel? && a.id == id && !a.saved && Waits(s, a.owner, id) && s.pending[id].logged)
  }

  predicate PartsIn(s: State, actions: seq<Action>, id: string)
    decreases |actions|
  {
    actions != [] && (Parts(s, actions[0], id) || PartsIn(Apply(s, actions[0]), actions[1..], id))
  }

  ghost predicate NothingParts(s: State, actions: seq<Action>) {
    forall id :: !PartsIn(s, actions, id)
  }

  lemma StrayStep(s: State, a: Action, id: string)
    requires Inv(s)
    ensures id in Apply(s, a).stray <==> id in s.stray || Parts(s, a, id)
  {
    assert IdInv(s, id);
  }

  /** An id goes stray exactly by such a step, and stays so. */
  lemma {:induction false} StrayExactly(s: State, actions: seq<Action>, id: string)
    requires Inv(s)
    ensures id in Run(s, actions).stray <==> id in s.stray || PartsIn(s, actions, id)
    decreases |actions|
  {
    hide Inv, Apply, Parts;
    if actions != [] {
      StepKeepsInv(s, actions[0]);
      StrayStep(s, actions[0], id);
      StrayExactly(Apply(s, actions[0]), actions[1..], id);
    }
  }

  /** In every run over any log: the ids open here are exactly the pending ones when, and only when, no
      step parted them and no pending ask is still unlogged; an open id names its ask's owner. */
  lemma LogAgreesExactly(rows: seq<Event>, actions: seq<Action>)
    ensures var s := Run(Start(rows), actions);
            && (OpenHere(s) == s.pending.Keys <==>
                NothingParts(Start(rows), actions) && forall id :: id in s.pending ==> s.pending[id].logged)
            && forall id :: id in s.pending && id in Fold(s.rows).permissions ==>
                 Fold(s.rows).permissions[id] == s.pending[id].owner
  {
    var s := Run(Start(rows), actions);
    StartInv(rows);
    RunKeepsInv(Start(rows), actions);
    AgreementIsExact(s);
    forall id
      ensures id in s.stray <==> PartsIn(Start(rows), actions, id)
    {
      StrayExactly(Start(rows), actions, id);
    }
    hide Run, Fold, PartsIn, OpenHere;
    if s.stray != {} {
      var id :| id in s.stray;
      assert PartsIn(Start(rows), actions, id);
    }
  }

  /** Every ask is one step and every append succeeds. */
  predicate Tidy(a: Action) {
    !a.AskInsert? && !a.AskLog? && (a.Respond? ==> a.saved) && (a.Cancel? ==> a.saved)
  }

  ghost predicate Tranquil(s: State) {
    s.asking.Keys == {} && Agreement(s)
  }

  lemma TidyStepStaysTranquil(s: State, a: Action)
    requires Tranquil(s) && Tidy(a)
    ensures Tranquil(Apply(s, a))
  {
    var s' := Apply(s, a);
    assert forall id :: id in s'.asking.Keys ==> id in s.asking.Keys;
  }

  lemma {:induction false} TidyRunsStayTranquil(s: State, actions: seq<Action>)
    requires Tranquil(s) && forall a :: a in actions ==> Tidy(a)
    ensures Tranquil(Run(s, actions))
    decreases |actions|
  {
    hide Tranquil, Apply;
    if actions != [] {
      TidyStepStaysTranquil(s, actions[0]);
      TidyRunsStayTranquil(Apply(s, actions[0]), actions[1..]);
    }
  }

  /** No other chat's permission is logged meanwhile. */
  predicate Alone(a: Action) {
    a.Elsewhere? ==> !a.row.entry.payload.PermissionRequest?
  }

  lemma {:induction false} AloneAllOpenAreOurs(s: State, actions: seq<Action>)
    requires Inv(s) && Fold(s.rows).permissions.Keys <= s.used.Keys && forall a :: a in actions ==> Alone(a)
    ensures Fold(Run(s, actions).rows).permissions.Keys <= Run(s, actions).used.Keys
    decreases |actions|
  {
    if actions != [] {
      var a := actions[0];
      assert a in actions && forall x :: x in actions[1..] ==> x in actions;
      StepKeepsInv(s, a);
      AloneStep(s, a);
      hide Inv, Apply, Fold;
      AloneAllOpenAreOurs(Apply(s, a), actions[1..]);
    }
  }

  lemma AloneStep(s: State, a: Action)
    requires Inv(s) && Fold(s.rows).permissions.Keys <= s.used.Keys && Alone(a)
    ensures Fold(Apply(s, a).rows).permissions.Keys <= Apply(s, a).used.Keys
  {
    var s' := Apply(s, a);
    assert s.used.Keys <= s'.used.Keys;
    if a.AskLog? {
      assert IdInv(s, a.id);
    }
    if s'.rows != s.rows {
      var e := s'.rows[|s'.rows| - 1];
      assert s'.rows == s.rows + [e];
      assert e.entry.payload.PermissionRequest? ==> e.entry.payload.id in s'.used;
      hide Inv, Apply, Fold;
      OwnRowStaysWithin(s.rows, e, s'.used.Keys);
    }
  }

  lemma OwnRowStaysWithin(rows: seq<Event>, e: Event, used: set<string>)
    requires Fold(rows).permissions.Keys <= used && (e.entry.payload.PermissionRequest? ==> e.entry.payload.id in used)
    ensures Fold(rows + [e]).permissions.Keys <= used
  {
    FoldStep(rows, e);
    hide Fold;
  }

  /** With whole asks and no failed append, the pending map is what the recovery fold leaves open among
      the ids used here, whatever other chats log; over a log closed at the start that no other chat asks
      in, it is all the fold leaves open. */
  lemma PendingMapIsTheFold(rows: seq<Event>, actions: seq<Action>)
    requires forall a :: a in actions ==> Tidy(a)
    ensures OpenHere(Run(Start(rows), actions)) == Run(Start(rows), actions).pending.Keys
    ensures Fold(rows).permissions == map[] && (forall a :: a in actions ==> Alone(a)) ==>
              Fold(Run(Start(rows), actions).rows).permissions.Keys == Run(Start(rows), actions).pending.Keys
  {
    TidyRunsStayTranquil(Start(rows), actions);
    StartInv(rows);
    RunKeepsInv(Start(rows), actions);
    AgreementIsExact(Run(Start(rows), actions));
    if Fold(rows).permissions == map[] && forall a :: a in actions ==> Alone(a) {
      AloneAllOpenAreOurs(Start(rows), actions);
    }
  }

  /** A cancel between an ask's insert and its log leaves a request that no later step closes: only a
      restart does. */
  lemma CancelInsideAnAsk(owner: Owner, id: string, options: set<string>, later: seq<Action>)
    ensures var s := Run(Start([]), [AskInsert(id, owner, options), Cancel(owner, id, true, 1), AskLog(id, true, 2)]);
            s.pending == map[] && s.answered == map[id := None] && id in Fold(s.rows).permissions
            && id in Fold(Run(s, later).rows).permissions && id !in Run(s, later).pending
  {
    var a, b, c := AskInsert(id, owner, options), Cancel(owner, id, true, 1), AskLog(id, true, 2);
    var s0 := Start([]);
    var s1 := Apply(s0, a);
    var s2 := Apply(s1, b);
    var s3 := Apply(s2, c);
    assert s3.pending == map[] && s3.answered == map[id := None] && id in s3.stray;
    assert [a, b, c][1..] == [b, c] && [b, c][1..] == [c] && [c][1..] == [];
    assert Run(s0, [a, b, c]) == Run(s1, [b, c]) == Run(s2, [c]) == Run(s3, []) == s3;
    StartInv([]);
    RunKeepsInv(s0, [a, b, c]);
    hide Run, Apply, Fold;
    StrayStaysOpen(s3, [], id);
    StrayStaysOpen(s3, later, id);
    EmptyRun(s3);
  }

  lemma EmptyRun(s: State)
    ensures Run(s, []) == s
  {
  }

  lemma StrayStaysOpen(s: State, actions: seq<Action>, id: string)
    requires Inv(s) && id in s.stray
    ensures id in Fold(Run(s, actions).rows).permissions && id !in Run(s, actions).pending
  {
    StrayExactly(s, actions, id);
    RunKeepsInv(s, actions);
    assert IdInv(Run(s, actions), id);
  }

  /** Whatever a run leaves open in the log, stray or pending, the next restart closes, a stray in the chat
      and for the agent of its request. */
  lemma RestartClosesStrays(rows: seq<Event>, actions: seq<Action>)
    ensures var s := Run(Start(rows), actions);
            Fold(Recovered(s.rows)).permissions == map[]
            && forall id :: id in s.stray ==>
                 exists i: nat :: LastAsked(s.rows, id, i)
                   && Adds(s.rows, Recovered(s.rows),
                           Entry(s.rows[i].entry.chat, s.rows[i].entry.agent, PermissionResponse(id, None)))
  {
    var s := Run(Start(rows), actions);
    RecoveryClosesEverything(s.rows);
    StartInv(rows);
    RunKeepsInv(Start(rows), actions);
    forall id | id in s.stray
      ensures exists i: nat :: LastAsked(s.rows, id, i)
                && Adds(s.rows, Recovered(s.rows),
                        Entry(s.rows[i].entry.chat, s.rows[i].entry.agent, PermissionResponse(id, None)))
    {
      assert IdInv(s, id);
      OpenPermissionMeaning(s.rows, id);
      var i: nat :| LastAsked(s.rows, id, i);
      RecoveryAppendsExactly(s.rows, Entry(s.rows[i].entry.chat, s.rows[i].entry.agent, PermissionResponse(id, None)));
    }
  }
}
