/**
 The durable event log as data: the rows, the restart-recovery fold over them, and the closing
 entries a restart appends for whatever the fold leaves open.
 */
module Events {
  import opened Collections

  /** The payload kinds the recovery fold reads; every other kind is `Other`. */
  datatype Payload =
    | PermissionRequest(id: string, options: set<string>)
    | PermissionResponse(id: string, optionId: Option<string>)
    | ElicitationRequest(id: string)
    | ElicitationResponse(id: string, action: string)
    | ElicitationComplete(elicitationId: string)
    | StateChange(process: string, turn: string)
    | TurnComplete(stopReason: string)
    | Other(kind: string)

  datatype Entry = Entry(chat: string, agent: string, payload: Payload)

  /** One row. `num` is its sequence number. */
  datatype Event = Event(num: nat, entry: Entry)

  datatype Owner = Owner(chat: string, agent: string)

  /** What the recovery fold holds: the three maps a restart walks. */
  datatype Open = Open(permissions: map<string, Owner>, elicitations: map<string, Owner>, turns: map<string, string>)

  const NOTHING_OPEN := Open(map[], map[], map[])

  function Observe(open: Open, entry: Entry): Open {
    match entry.payload
    case PermissionRequest(id, _) => open.(permissions := open.permissions[id := Owner(entry.chat, entry.agent)])
    case PermissionResponse(id, _) => open.(permissions := open.permissions - {id})
    case ElicitationRequest(id) => open.(elicitations := open.elicitations[id := Owner(entry.chat, entry.agent)])
    case ElicitationResponse(id, _) => open.(elicitations := open.elicitations - {id})
    case ElicitationComplete(id) => open.(elicitations := open.elicitations - {id})
    case StateChange(_, turn) =>
      if turn == "PROMPTING" then open.(turns := open.turns[entry.chat := entry.agent]) else open
    case TurnComplete(_) => open.(turns := open.turns - {entry.chat})
    case Other(_) => open
  }

  function Fold(rows: seq<Event>): Open {
    if rows == [] then NOTHING_OPEN else Observe(Fold(rows[..|rows| - 1]), rows[|rows| - 1].entry)
  }

  lemma FoldStep(rows: seq<Event>, e: Event)
    ensures Fold(rows + [e]) == Observe(Fold(rows), e.entry)
  {
    assert (rows + [e])[..|rows|] == rows;
  }

  // ------------------------------------------------------------ the recovery scan

  /** The rows the recovery query selects; a state change is selected whatever its turn. */
  predicate IsRecoveryRow(e: Event) {
    !e.entry.payload.Other?
  }

  function RecoveryRows(rows: seq<Event>): seq<Event> {
    Filter(IsRecoveryRow, rows)
  }

  /** Folding the recovery query is folding the whole log. */
  lemma {:induction false} RecoveryScanSeesEverything(rows: seq<Event>)
    ensures Fold(RecoveryRows(rows)) == Fold(rows)
  {
    if rows != [] {
      var front, e := rows[..|rows| - 1], rows[|rows| - 1];
      RecoveryScanSeesEverything(front);
      FilterConcat(IsRecoveryRow, front, [e]);
      assert rows == front + [e];
      assert Filter(IsRecoveryRow, [e]) == if IsRecoveryRow(e) then [e] else [];
      if IsRecoveryRow(e) {
        FoldStep(RecoveryRows(front), e);
      } else {
        assert RecoveryRows(front) + [] == RecoveryRows(front);
      }
    }
  }

  // ------------------------------------------------------------ what the fold means

  predicate AsksPermission(e: Event, id: string) {
    e.entry.payload.PermissionRequest? && e.entry.payload.id == id
  }

  predicate AnswersPermission(e: Event, id: string) {
    e.entry.payload.PermissionResponse? && e.entry.payload.id == id
  }

  /** The last row that speaks of `id` is row `i`, and it is a request. */
  ghost predicate LastAsked(rows: seq<Event>, id: string, i: nat) {
    i < |rows| && AsksPermission(rows[i], id)
    && forall j :: i < j < |rows| ==> !AsksPermission(rows[j], id) && !AnswersPermission(rows[j], id)
  }

  lemma {:induction false} OpenPermissionMeaning(rows: seq<Event>, id: string)
    ensures id in Fold(rows).permissions <==> exists i: nat :: LastAsked(rows, id, i)
    ensures forall i: nat :: LastAsked(rows, id, i) ==>
              id in Fold(rows).permissions
              && Fold(rows).permissions[id] == Owner(rows[i].entry.chat, rows[i].entry.agent)
  {
    if rows != [] {
      var front, e := rows[..|rows| - 1], rows[|rows| - 1];
      OpenPermissionMeaning(front, id);
      if AsksPermission(e, id) {
        assert LastAsked(rows, id, |rows| - 1);
      } else {
        forall i: nat
          ensures LastAsked(rows, id, i) <==> LastAsked(front, id, i) && !AnswersPermission(e, id)
        {
          if LastAsked(front, id, i) && !AnswersPermission(e, id) {
            forall j | i < j < |rows|
              ensures !AsksPermission(rows[j], id) && !AnswersPermission(rows[j], id)
            {
              if j < |front| { assert rows[j] == front[j]; }
            }
          }
          if LastAsked(rows, id, i) {
            assert i < |front|;
            forall j | i < j < |front|
              ensures !AsksPermission(front[j], id) && !AnswersPermission(front[j], id)
            {
              assert rows[j] == front[j];
            }
          }
        }
      }
    }
  }

  predicate StartsTurn(e: Event, chat: string) {
    e.entry.chat == chat && e.entry.payload.StateChange? && e.entry.payload.turn == "PROMPTING"
  }

  predicate EndsTurn(e: Event, chat: string) {
    e.entry.chat == chat && e.entry.payload.TurnComplete?
  }

  /** Row `i` started a turn of `chat` that no later row completes. */
  ghost predicate StillPrompting(rows: seq<Event>, chat: string, i: nat) {
    i < |rows| && StartsTurn(rows[i], chat) && forall j :: i < j < |rows| ==> !EndsTurn(rows[j], chat)
  }

  /** And it is the last that did. */
  ghost predicate LastPrompting(rows: seq<Event>, chat: string, i: nat) {
    StillPrompting(rows, chat, i) && forall j :: i < j < |rows| ==> !StartsTurn(rows[j], chat)
  }

  lemma PromptingStep(front: seq<Event>, e: Event, chat: string, i: nat)
    requires !StartsTurn(e, chat)
    ensures StillPrompting(front + [e], chat, i) <==> StillPrompting(front, chat, i) && !EndsTurn(e, chat)
    ensures LastPrompting(front + [e], chat, i) <==> LastPrompting(front, chat, i) && !EndsTurn(e, chat)
  {
    var rows := front + [e];
    assert rows[|front|] == e && forall j :: 0 <= j < |front| ==> rows[j] == front[j];
  }

  lemma TurnStep(open: Open, e: Event, chat: string)
    ensures var turns := Observe(open, e.entry).turns;
            && (chat in turns <==> StartsTurn(e, chat) || (chat in open.turns && !EndsTurn(e, chat)))
            && (chat in turns ==> turns[chat] == if StartsTurn(e, chat) then e.entry.agent else open.turns[chat])
  {
  }

  /** A turn is active exactly when a row started it that no later row completes. */
  lemma {:induction false} ActiveTurnMeaning(rows: seq<Event>, chat: string)
    ensures chat in Fold(rows).turns <==> exists i: nat :: StillPrompting(rows, chat, i)
  {
    if rows != [] {
      var front, e := rows[..|rows| - 1], rows[|rows| - 1];
      assert rows == front + [e];
      ActiveTurnMeaning(front, chat);
      FoldStep(front, e);
      TurnStep(Fold(front), e, chat);
      hide Fold, Observe;
      if StartsTurn(e, chat) {
        assert StillPrompting(rows, chat, |rows| - 1);
      } else {
        forall i: nat
          ensures StillPrompting(rows, chat, i) <==> StillPrompting(front, chat, i) && !EndsTurn(e, chat)
        {
          PromptingStep(front, e, chat, i);
        }
        hide StillPrompting, EndsTurn;
      }
    }
  }

  /** And the last such row names the agent the repair will speak for. */
  lemma {:induction false} ActiveTurnAgent(rows: seq<Event>, chat: string, i: nat)
    requires LastPrompting(rows, chat, i)
    ensures chat in Fold(rows).turns && Fold(rows).turns[chat] == rows[i].entry.agent
  {
    var front, e := rows[..|rows| - 1], rows[|rows| - 1];
    assert rows == front + [e];
    FoldStep(front, e);
    TurnStep(Fold(front), e, chat);
    if i < |front| {
      PromptingStep(front, e, chat, i);
      ActiveTurnAgent(front, chat, i);
    }
  }

  // ------------------------------------------------------------ elicitations, row by row

  predicate AsksElicitation(e: Event, id: string) {
    e.entry.payload.ElicitationRequest? && e.entry.payload.id == id
  }

  predicate EndsElicitation(e: Event, id: string) {
    e.entry.payload == ElicitationComplete(id) || (e.entry.payload.ElicitationResponse? && e.entry.payload.id == id)
  }

  predicate SpeaksOfElicitation(e: Event, id: string) {
    AsksElicitation(e, id) || EndsElicitation(e, id)
  }

  /** Row `i` asks for `id`, and no later row of any chat speaks of it. */
  ghost predicate LastElicited(rows: seq<Event>, id: string, i: nat) {
    i < |rows| && AsksElicitation(rows[i], id) && forall j :: i < j < |rows| ==> !SpeaksOfElicitation(rows[j], id)
  }

  /** Row `i` asks for `id` in `chat`, and no later row of that chat speaks of it. */
  ghost predicate LastElicitedIn(rows: seq<Event>, chat: string, id: string, i: nat) {
    i < |rows| && AsksElicitation(rows[i], id) && rows[i].entry.chat == chat
    && forall j :: i < j < |rows| && rows[j].entry.chat == chat ==> !SpeaksOfElicitation(rows[j], id)
  }

  lemma ElicitedStep(front: seq<Event>, e: Event, chat: string, id: string, i: nat)
    ensures i < |front| ==>
              (LastElicited(front + [e], id, i) <==> LastElicited(front, id, i) && !SpeaksOfElicitation(e, id))
    ensures i < |front| ==>
              (LastElicitedIn(front + [e], chat, id, i) <==>
               LastElicitedIn(front, chat, id, i) && !(e.entry.chat == chat && SpeaksOfElicitation(e, id)))
    ensures LastElicited(front + [e], id, |front|) <==> AsksElicitation(e, id)
    ensures LastElicitedIn(front + [e], chat, id, |front|) <==> AsksElicitation(e, id) && e.entry.chat == chat
  {
    var rows := front + [e];
    assert rows[|front|] == e && forall j :: 0 <= j < |front| ==> rows[j] == front[j];
  }

  /** An elicitation is left open exactly when the last row that speaks of its id is a request, whose
      owner is recorded. */
  lemma {:induction false} OpenElicitationMeaning(rows: seq<Event>, id: string)
    ensures id in Fold(rows).elicitations <==> exists i: nat :: LastElicited(rows, id, i)
    ensures forall i: nat :: LastElicited(rows, id, i) ==>
              id in Fold(rows).elicitations
              && Fold(rows).elicitations[id] == Owner(rows[i].entry.chat, rows[i].entry.agent)
  {
    if rows != [] {
      var front, e := rows[..|rows| - 1], rows[|rows| - 1];
      assert rows == front + [e];
      OpenElicitationMeaning(front, id);
      forall i: nat
        ensures i < |front| ==>
                  (LastElicited(rows, id, i) <==> LastElicited(front, id, i) && !SpeaksOfElicitation(e, id))
        ensures LastElicited(rows, id, |front|) <==> AsksElicitation(e, id)
        ensures LastElicited(rows, id, i) ==> i <= |front|
        ensures LastElicited(front, id, i) ==> i < |front| && rows[i] == front[i]
      {
        ElicitedStep(front, e, "", id, i);
      }
      hide LastElicited;
      FoldStep(front, e);
    }
  }

  // ------------------------------------------------------------ the closing entries

  function ClosePermission(id: string, owner: Owner): Entry {
    Entry(owner.chat, owner.agent, PermissionResponse(id, None))
  }

  function CloseElicitation(id: string, owner: Owner): Entry {
    Entry(owner.chat, owner.agent, ElicitationResponse(id, "cancel"))
  }

  function CloseTurn(chat: string, agent: string): Entry {
    Entry(chat, agent, TurnComplete("backend_restarted"))
  }

  /** One closing entry per open item, in the key order of the ordered map that holds them. */
  ghost function Closers<V>(open: map<string, V>, close: (string, V) -> Entry): seq<Entry>
    decreases |open|
  {
    if open.Keys == {} then [] else
      var key := Least(open.Keys);
      SmallerMap(open, key);
      [close(key, open[key])] + Closers(open - {key}, close)
  }

  lemma {:induction false} ClosersFollowKeyOrder<V>(open: map<string, V>, close: (string, V) -> Entry)
    ensures |Closers(open, close)| == |InOrder(open.Keys)| == |open|
    ensures forall i :: 0 <= i < |open| ==>
              InOrder(open.Keys)[i] in open
                && Closers(open, close)[i] == close(InOrder(open.Keys)[i], open[InOrder(open.Keys)[i]])
    decreases |open|
  {
    if open.Keys != {} {
      var key := Least(open.Keys);
      var rest := open - {key};
      SmallerMap(open, key);
      assert rest.Keys == open.Keys - {key};
      ClosersFollowKeyOrder(rest, close);
      assert InOrder(open.Keys) == [key] + InOrder(rest.Keys)
             && Closers(open, close) == [close(key, open[key])] + Closers(rest, close);
      hide InOrder, Closers, Leq;
      OneMoreCloser(open, close, key, InOrder(rest.Keys), Closers(rest, close));
    }
  }

  lemma OneMoreCloser<V>(open: map<string, V>, close: (string, V) -> Entry, key: string, keys: seq<string>,
                         entries: seq<Entry>)
    requires key in open && |keys| == |entries| == |open| - 1
    requires forall i :: 0 <= i < |keys| ==>
               keys[i] in open - {key} && entries[i] == close(keys[i], (open - {key})[keys[i]])
    ensures var all := [key] + keys;
            forall i :: 0 <= i < |open| ==>
                all[i] in open && ([close(key, open[key])] + entries)[i] == close(all[i], open[all[i]])
  {
  }

  /** Every closing entry one restart owes, in the order it appends them. */
  ghost function Repairs(open: Open): seq<Entry> {
    Closers(open.permissions, ClosePermission) + Closers(open.elicitations, CloseElicitation)
      + Closers(open.turns, CloseTurn)
  }

  ghost function Owed(rows: seq<Event>): seq<Entry> {
    Repairs(Fold(rows))
  }

  lemma ClosersComplete<V>(open: map<string, V>, close: (string, V) -> Entry)
    ensures |Closers(open, close)| == |open|
    ensures forall key :: key in open ==> close(key, open[key]) in Closers(open, close)
  {
    ClosersFollowKeyOrder(open, close);
    InOrderIsAscendingListing(open.Keys);
    forall key | key in open
      ensures close(key, open[key]) in Closers(open, close)
    {
      assert key in InOrder(open.Keys);
      var i :| 0 <= i < |open| && InOrder(open.Keys)[i] == key;
      assert Closers(open, close)[i] == close(key, open[key]);
    }
  }

  lemma PermissionClosers(open: map<string, Owner>)
    ensures forall e :: e in Closers(open, ClosePermission) ==> e.payload.PermissionResponse?
    ensures Distinct(Closers(open, ClosePermission))
  {
    ClosersFollowKeyOrder(open, ClosePermission);
    InOrderIsAscendingListing(open.Keys);
  }

  lemma ElicitationClosers(open: map<string, Owner>)
    ensures forall e :: e in Closers(open, CloseElicitation) ==>
              e.payload.ElicitationResponse? && e.payload.id in open && e.chat == open[e.payload.id].chat
    ensures Distinct(Closers(open, CloseElicitation))
  {
    ClosersFollowKeyOrder(open, CloseElicitation);
    InOrderIsAscendingListing(open.Keys);
  }

  lemma TurnClosers(open: map<string, string>)
    ensures forall e :: e in Closers(open, CloseTurn) ==> e.payload.TurnComplete?
    ensures Distinct(Closers(open, CloseTurn))
  {
    ClosersFollowKeyOrder(open, CloseTurn);
    InOrderIsAscendingListing(open.Keys);
  }

  /** Each open item gets its closing entry, no entry is appended twice, and nothing else is. */
  lemma EachOpenItemClosedOnce(open: Open)
    ensures |Repairs(open)| == |open.permissions| + |open.elicitations| + |open.turns|
    ensures forall id :: id in open.permissions ==> ClosePermission(id, open.permissions[id]) in Repairs(open)
    ensures forall id :: id in open.elicitations ==> CloseElicitation(id, open.elicitations[id]) in Repairs(open)
    ensures forall chat :: chat in open.turns ==> CloseTurn(chat, open.turns[chat]) in Repairs(open)
    ensures Distinct(Repairs(open))
  {
    var p, e, t := Closers(open.permissions, ClosePermission), Closers(open.elicitations, CloseElicitation),
      Closers(open.turns, CloseTurn);
    ClosersComplete(open.permissions, ClosePermission);
    ClosersComplete(open.elicitations, CloseElicitation);
    ClosersComplete(open.turns, CloseTurn);
    PermissionClosers(open.permissions);
    ElicitationClosers(open.elicitations);
    TurnClosers(open.turns);
    DistinctConcat(p, e);
    DistinctConcat(p + e, t);
  }

  // ------------------------------------------------------------ appending

  /** The store's `MAX(seq)`, zero when it holds no row. */
  function MaxNum(rows: seq<Event>): nat {
    if rows == [] then 0 else rows[|rows| - 1].num
  }

  /** Rows in ascending, distinct sequence-number order: the primary key. */
  ghost predicate Ascending(rows: seq<Event>) {
    forall i, j :: 0 <= i < j < |rows| ==> rows[i].num < rows[j].num
  }

  lemma {:induction false} FilterKeepsAscending(keep: Event -> bool, rows: seq<Event>)
    requires Ascending(rows)
    ensures Ascending(Filter(keep, rows))
  {
    if rows != [] {
      var rest := Filter(keep, rows[1..]);
      FilterKeepsAscending(keep, rows[1..]);
      FilterMembers(keep, rows[1..]);
      forall i | 0 <= i < |rest|
        ensures rows[0].num < rest[i].num
      {
        assert rest[i] in rest;
        var j :| 0 <= j < |rows[1..]| && rows[1..][j] == rest[i];
        assert rest[i] == rows[j + 1];
      }
    }
  }

  /** Appends entries under consecutive numbers after the highest stored one. */
  function Extend(rows: seq<Event>, entries: seq<Entry>): seq<Event>
    decreases |entries|
  {
    if entries == [] then rows
    else Extend(rows + [Event(MaxNum(rows) + 1, entries[0])], entries[1..])
  }

  lemma {:induction false} ExtendMeaning(rows: seq<Event>, entries: seq<Entry>)
    ensures |Extend(rows, entries)| == |rows| + |entries|
    ensures rows <= Extend(rows, entries)
    ensures forall i :: 0 <= i < |entries| ==>
              Extend(rows, entries)[|rows| + i] == Event(MaxNum(rows) + 1 + i, entries[i])
    ensures Ascending(rows) ==> Ascending(Extend(rows, entries))
    decreases |entries|
  {
    if entries != [] {
      var rows' := rows + [Event(MaxNum(rows) + 1, entries[0])];
      ExtendMeaning(rows', entries[1..]);
      var all := Extend(rows, entries);
      forall i | 0 <= i < |entries|
        ensures all[|rows| + i] == Event(MaxNum(rows) + 1 + i, entries[i])
      {
        if i == 0 {
          assert rows' <= all && rows'[|rows|] == all[|rows|];
        } else {
          assert all[|rows'| + (i - 1)] == Event(MaxNum(rows') + 1 + (i - 1), entries[1..][i - 1]);
        }
      }
    }
  }

  lemma {:induction false} ExtendInPieces(rows: seq<Event>, a: seq<Entry>, b: seq<Entry>)
    ensures Extend(rows, a + b) == Extend(Extend(rows, a), b)
    decreases |a|
  {
    if a == [] {
      assert a + b == b;
    } else {
      assert (a + b)[0] == a[0] && (a + b)[1..] == a[1..] + b;
      ExtendInPieces(rows + [Event(MaxNum(rows) + 1, a[0])], a[1..], b);
    }
  }

  // ------------------------------------------------------------ crash and restart

  /** The log after one uninterrupted restart. */
  ghost function Recovered(rows: seq<Event>): seq<Event> {
    Extend(rows, Owed(rows))
  }

  /** The log after a restart that stopped once `stop` of its closing entries were durable. */
  ghost function Stopped(rows: seq<Event>, stop: nat): seq<Event> {
    Extend(rows, Owed(rows)[..if stop <= |Owed(rows)| then stop else |Owed(rows)|])
  }

  /** The log after a run of restarts, the i-th stopped after `stops[i]` closing entries. */
  ghost function StoppedRepeatedly(rows: seq<Event>, stops: seq<nat>): seq<Event>
    decreases |stops|
  {
    if stops == [] then rows else StoppedRepeatedly(Stopped(rows, stops[0]), stops[1..])
  }

  lemma ClosersTail<V>(open: map<string, V>, close: (string, V) -> Entry)
    requires open.Keys != {}
    ensures Closers(open, close)
            == [close(Least(open.Keys), open[Least(open.Keys)])] + Closers(open - {Least(open.Keys)}, close)
  {
  }

  lemma ClosersOfNothing<V>(open: map<string, V>, close: (string, V) -> Entry)
    ensures Closers(open, close) == [] <==> open.Keys == {}
  {
  }

  /** Observing the first owed entry leaves exactly the others owed. */
  lemma ObserveFirstRepair(open: Open)
    requires Repairs(open) != []
    ensures Repairs(Observe(open, Repairs(open)[0])) == Repairs(open)[1..]
  {
    var p, l, t := Closers(open.permissions, ClosePermission), Closers(open.elicitations, CloseElicitation),
      Closers(open.turns, CloseTurn);
    hide Closers;
    ClosersOfNothing(open.permissions, ClosePermission);
    ClosersOfNothing(open.elicitations, CloseElicitation);
    ClosersOfNothing(open.turns, CloseTurn);
    if open.permissions.Keys != {} {
      ClosersTail(open.permissions, ClosePermission);
      assert (p + l + t)[0] == p[0] && (p + l + t)[1..] == p[1..] + l + t;
    } else if open.elicitations.Keys != {} {
      ClosersTail(open.elicitations, CloseElicitation);
      assert p == [] && (p + l + t)[0] == l[0] && (p + l + t)[1..] == p + l[1..] + t;
    } else {
      assert p == [] && l == [] && p + l + t == t;
      ClosersTail(open.turns, CloseTurn);
      assert t[1..] == p + l + t[1..];
    }
  }

  /** Making one owed entry durable leaves exactly the others owed. */
  lemma OneRepair(rows: seq<Event>)
    requires Owed(rows) != []
    ensures Owed(Extend(rows, [Owed(rows)[0]])) == Owed(rows)[1..]
  {
    var first := Owed(rows)[0];
    var e := Event(MaxNum(rows) + 1, first);
    assert [first][1..] == [];
    assert Extend(rows, [first]) == Extend(rows + [e], []) == rows + [e];
    FoldStep(rows, e);
    ObserveFirstRepair(Fold(rows));
  }

  /** After any prefix of the owed entries is durable, a restart owes the rest and nothing more. */
  lemma {:induction false} CrashLeavesTheRestOwed(rows: seq<Event>, k: nat)
    requires k <= |Owed(rows)|
    ensures Owed(Extend(rows, Owed(rows)[..k])) == Owed(rows)[k..]
  {
    var owed := Owed(rows);
    if k == 0 {
      assert owed[..0] == [];
    } else {
      CrashLeavesTheRestOwed(rows, k - 1);
      hide *;
      TakeOneMore(owed, k);
      ExtendInPieces(rows, owed[..k - 1], [owed[k - 1]]);
      OneRepair(Extend(rows, owed[..k - 1]));
    }
  }

  lemma TakeOneMore<T>(s: seq<T>, k: nat)
    requires 0 < k <= |s|
    ensures s[..k] == s[..k - 1] + [s[k - 1]] && s[k - 1..] != [] && s[k - 1..][0] == s[k - 1]
            && s[k - 1..][1..] == s[k..]
  {
  }

  lemma StopIsInvisible(rows: seq<Event>, stop: nat)
    ensures Recovered(Stopped(rows, stop)) == Recovered(rows)
  {
    var owed := Owed(rows);
    var k := if stop <= |owed| then stop else |owed|;
    CrashLeavesTheRestOwed(rows, k);
    ExtendInPieces(rows, owed[..k], owed[k..]);
    assert owed[..k] + owed[k..] == owed;
  }

  /** However often and wherever recovery is cut short, the next full one ends with the same log. */
  lemma {:induction false} CrashObliviousRecovery(rows: seq<Event>, stops: seq<nat>)
    ensures Recovered(StoppedRepeatedly(rows, stops)) == Recovered(rows)
    decreases |stops|
  {
    if stops != [] {
      CrashObliviousRecovery(Stopped(rows, stops[0]), stops[1..]);
      StopIsInvisible(rows, stops[0]);
    }
  }

  /** A full recovery keeps the old log as a prefix, leaves nothing open, and owes nothing again. */
  lemma RecoveryClosesEverything(rows: seq<Event>)
    ensures rows <= Recovered(rows)
    ensures Fold(Recovered(rows)) == NOTHING_OPEN
    ensures Recovered(Recovered(rows)) == Recovered(rows)
  {
    var owed := Owed(rows);
    CrashLeavesTheRestOwed(rows, |owed|);
    assert owed[..|owed|] == owed && owed[|owed|..] == [];
    ExtendMeaning(rows, owed);
    var open := Fold(Recovered(rows));
    EachOpenItemClosedOnce(open);
    assert Repairs(open) == [];
    assert open.permissions == map[] && open.elicitations == map[] && open.turns == map[];
  }

  // ------------------------------------------------------------ what recovery writes, row by row

  lemma {:induction false} ActiveTurnHasALastRow(rows: seq<Event>, chat: string)
    requires chat in Fold(rows).turns
    ensures exists i: nat :: LastPrompting(rows, chat, i) && Fold(rows).turns[chat] == rows[i].entry.agent
  {
    var front, e := rows[..|rows| - 1], rows[|rows| - 1];
    assert rows == front + [e];
    FoldStep(front, e);
    TurnStep(Fold(front), e, chat);
    hide Fold, Observe;
    if StartsTurn(e, chat) {
      assert LastPrompting(rows, chat, |front|);
    } else {
      ActiveTurnHasALastRow(front, chat);
      var i: nat :| LastPrompting(front, chat, i) && Fold(front).turns[chat] == front[i].entry.agent;
      PromptingStep(front, e, chat, i);
      assert rows[i] == front[i];
    }
  }

  /** Answers, as unanswered, a permission last asked for in a row of this chat and agent. */
  ghost predicate ClosesPermission(rows: seq<Event>, entry: Entry) {
    entry.payload.PermissionResponse? &&
    exists i: nat :: LastAsked(rows, entry.payload.id, i) &&
      entry == Entry(rows[i].entry.chat, rows[i].entry.agent, PermissionResponse(entry.payload.id, None))
  }

  /** Cancels an elicitation last spoken of by a request in this chat and of this agent. */
  ghost predicate ClosesElicitation(rows: seq<Event>, entry: Entry) {
    entry.payload.ElicitationResponse? &&
    exists i: nat :: LastElicited(rows, entry.payload.id, i) &&
      entry == Entry(rows[i].entry.chat, rows[i].entry.agent, ElicitationResponse(entry.payload.id, "cancel"))
  }

  /** Completes a turn still prompting in this chat, for the agent that last prompted. */
  ghost predicate ClosesTurn(rows: seq<Event>, entry: Entry) {
    exists i: nat :: LastPrompting(rows, entry.chat, i) &&
      entry == Entry(entry.chat, rows[i].entry.agent, TurnComplete("backend_restarted"))
  }

  lemma ClosersMembers<V>(open: map<string, V>, close: (string, V) -> Entry, entry: Entry)
    ensures entry in Closers(open, close) <==> exists key :: key in open && entry == close(key, open[key])
  {
    ClosersComplete(open, close);
    ClosersFollowKeyOrder(open, close);
    hide Closers;
    if entry in Closers(open, close) {
      var i :| 0 <= i < |Closers(open, close)| && Closers(open, close)[i] == entry;
      var key := InOrder(open.Keys)[i];
      assert key in open && entry == close(key, open[key]);
    }
  }

  lemma PermissionRepairs(rows: seq<Event>, entry: Entry)
    ensures entry in Closers(Fold(rows).permissions, ClosePermission) <==> ClosesPermission(rows, entry)
  {
    var open := Fold(rows).permissions;
    ClosersMembers(open, ClosePermission, entry);
    hide Fold, Closers, LastAsked;
    if entry.payload.PermissionResponse? {
      OpenPermissionMeaning(rows, entry.payload.id);
      if key :| key in open && entry == ClosePermission(key, open[key]) {
        var i: nat :| LastAsked(rows, key, i);
      }
      if ClosesPermission(rows, entry) {
        assert entry == ClosePermission(entry.payload.id, open[entry.payload.id]);
      }
    }
  }

  lemma ElicitationRepairs(rows: seq<Event>, entry: Entry)
    ensures entry in Closers(Fold(rows).elicitations, CloseElicitation) <==> ClosesElicitation(rows, entry)
  {
    var open := Fold(rows).elicitations;
    ClosersMembers(open, CloseElicitation, entry);
    hide Fold, Closers, LastElicited;
    if entry.payload.ElicitationResponse? {
      OpenElicitationMeaning(rows, entry.payload.id);
      if key :| key in open && entry == CloseElicitation(key, open[key]) {
        var i: nat :| LastElicited(rows, key, i);
      }
      if ClosesElicitation(rows, entry) {
        assert entry == CloseElicitation(entry.payload.id, open[entry.payload.id]);
      }
    }
  }

  lemma TurnRepairs(rows: seq<Event>, entry: Entry)
    ensures entry in Closers(Fold(rows).turns, CloseTurn) <==> ClosesTurn(rows, entry)
  {
    var open := Fold(rows).turns;
    ClosersMembers(open, CloseTurn, entry);
    hide Fold, Closers;
    if key :| key in open && entry == CloseTurn(key, open[key]) {
      ActiveTurnHasALastRow(rows, key);
    }
    if i: nat :| LastPrompting(rows, entry.chat, i)
                 && entry == Entry(entry.chat, rows[i].entry.agent, TurnComplete("backend_restarted")) {
      ActiveTurnAgent(rows, entry.chat, i);
      assert entry == CloseTurn(entry.chat, open[entry.chat]);
    }
  }

  lemma OwedExactly(rows: seq<Event>, entry: Entry)
    ensures entry in Owed(rows) <==>
              ClosesPermission(rows, entry) || ClosesElicitation(rows, entry) || ClosesTurn(rows, entry)
  {
    PermissionRepairs(rows, entry);
    ElicitationRepairs(rows, entry);
    TurnRepairs(rows, entry);
    hide Fold, Closers, ClosesPermission, ClosesElicitation, ClosesTurn;
  }

  /** One of the rows after `before` says `entry`. */
  ghost predicate Adds(before: seq<Event>, all: seq<Event>, entry: Entry) {
    exists k :: |before| <= k < |all| && all[k].entry == entry
  }

  /** A full recovery appends exactly the answers, cancellations and completions that the rows lack, each
      in the chat and for the agent of the row it closes. */
  lemma RecoveryAppendsExactly(rows: seq<Event>, entry: Entry)
    ensures Adds(rows, Recovered(rows), entry) <==>
              ClosesPermission(rows, entry) || ClosesElicitation(rows, entry) || ClosesTurn(rows, entry)
  {
    OwedExactly(rows, entry);
    ExtendMeaning(rows, Owed(rows));
    var all, owed := Recovered(rows), Owed(rows);
    hide Extend, Owed, MaxNum, ClosesPermission, ClosesElicitation, ClosesTurn;
    if entry in owed {
      var i :| 0 <= i < |owed| && owed[i] == entry;
      assert all[|rows| + i].entry == entry;
    }
    if k :| |rows| <= k < |all| && all[k].entry == entry {
      assert all[|rows| + (k - |rows|)].entry == owed[k - |rows|];
    }
  }

  function Rank(entry: Entry): nat {
    if entry.payload.PermissionResponse? then 0 else if entry.payload.ElicitationResponse? then 1 else 2
  }

  function KeyOf(entry: Entry): string {
    match entry.payload
    case PermissionResponse(id, _) => id
    case ElicitationResponse(id, _) => id
    case _ => entry.chat
  }

  /** Answers before cancellations before completions, and each in the order of ids or chats. */
  predicate Precedes(a: Entry, b: Entry) {
    Rank(a) < Rank(b) || (Rank(a) == Rank(b) && KeyOf(a) != KeyOf(b) && Leq(KeyOf(a), KeyOf(b)))
  }

  ghost predicate InSequence(entries: seq<Entry>) {
    forall i, j :: 0 <= i < j < |entries| ==> Precedes(entries[i], entries[j])
  }

  lemma ClosersInSequence<V>(open: map<string, V>, close: (string, V) -> Entry, rank: nat)
    requires forall key, v :: Rank(close(key, v)) == rank && KeyOf(close(key, v)) == key
    ensures InSequence(Closers(open, close)) && forall e :: e in Closers(open, close) ==> Rank(e) == rank
  {
    ClosersFollowKeyOrder(open, close);
    InOrderIsAscendingListing(open.Keys);
    var keys, entries := InOrder(open.Keys), Closers(open, close);
    assert |open.Keys| == |open|;
    hide Closers, InOrder, Leq, Rank, KeyOf;
    forall i, j | 0 <= i < j < |entries|
      ensures Precedes(entries[i], entries[j])
    {
      assert Rank(entries[i]) == rank && KeyOf(entries[i]) == keys[i];
      assert Rank(entries[j]) == rank && KeyOf(entries[j]) == keys[j];
    }
  }

  lemma SequenceConcat(a: seq<Entry>, b: seq<Entry>)
    requires InSequence(a) && InSequence(b) && forall x, y :: x in a && y in b ==> Rank(x) < Rank(y)
    ensures InSequence(a + b)
  {
    forall i, j | 0 <= i < j < |a + b|
      ensures Precedes((a + b)[i], (a + b)[j])
    {
      if i < |a| <= j {
        assert a[i] in a && b[j - |a|] in b;
      }
    }
  }

  lemma RepairsInSequence(open: Open)
    ensures InSequence(Repairs(open))
  {
    ClosersInSequence(open.permissions, ClosePermission, 0);
    ClosersInSequence(open.elicitations, CloseElicitation, 1);
    ClosersInSequence(open.turns, CloseTurn, 2);
    hide Closers, Rank, KeyOf, Leq, InSequence;
    var p, e, t := Closers(open.permissions, ClosePermission), Closers(open.elicitations, CloseElicitation),
      Closers(open.turns, CloseTurn);
    SequenceConcat(p, e);
    SequenceConcat(p + e, t);
  }

  /** They come in that order, under the next numbers, and so none twice. */
  lemma RecoveryAppendsInOrder(rows: seq<Event>, j: nat, k: nat)
    requires |rows| <= j < k < |Recovered(rows)|
    ensures Precedes(Recovered(rows)[j].entry, Recovered(rows)[k].entry)
    ensures Recovered(rows)[j].num == MaxNum(rows) + 1 + (j - |rows|)
  {
    RepairsInSequence(Fold(rows));
    ExtendMeaning(rows, Owed(rows));
    var all, owed := Recovered(rows), Owed(rows);
    hide Fold, Repairs, Precedes, Extend, MaxNum;
    assert all[|rows| + (j - |rows|)].entry == owed[j - |rows|];
    assert all[|rows| + (k - |rows|)].entry == owed[k - |rows|];
  }

  // ------------------------------------------------------------ elicitations, chat by chat

  /** The (chat, id) pairs whose request is unanswered within its own chat. */
  function UnansweredByChat(rows: seq<Event>): set<(string, string)> {
    if rows == [] then {} else ObserveByChat(UnansweredByChat(rows[..|rows| - 1]), rows[|rows| - 1].entry)
  }

  function ObserveByChat(open: set<(string, string)>, entry: Entry): set<(string, string)> {
    match entry.payload
    case ElicitationRequest(id) => open + {(entry.chat, id)}
    case ElicitationResponse(id, _) => open - {(entry.chat, id)}
    case ElicitationComplete(id) => open - {(entry.chat, id)}
    case _ => open
  }

  function AnsweredPairs(entries: seq<Entry>): set<(string, string)> {
    set e | e in entries && e.payload.ElicitationResponse? :: (e.chat, e.payload.id)
  }

  lemma {:induction false} ClosingByChat(rows: seq<Event>, entries: seq<Entry>)
    requires forall e :: e in entries ==>
               e.payload.PermissionResponse? || e.payload.ElicitationResponse? || e.payload.TurnComplete?
    ensures UnansweredByChat(Extend(rows, entries)) == UnansweredByChat(rows) - AnsweredPairs(entries)
    decreases |entries|
  {
    if entries != [] {
      var e := entries[0];
      var rows' := rows + [Event(MaxNum(rows) + 1, e)];
      assert rows'[..|rows|] == rows;
      ClosingByChat(rows', entries[1..]);
      assert entries == [e] + entries[1..];
      assert AnsweredPairs(entries) == AnsweredPairs([e]) + AnsweredPairs(entries[1..]);
    }
  }

  lemma RepairsAnswerRecordedOwners(open: Open)
    ensures forall e :: e in Repairs(open) ==>
              e.payload.PermissionResponse? || e.payload.ElicitationResponse? || e.payload.TurnComplete?
    ensures AnsweredPairs(Repairs(open)) == set id | id in open.elicitations :: (open.elicitations[id].chat, id)
  {
    PermissionClosers(open.permissions);
    ElicitationClosers(open.elicitations);
    TurnClosers(open.turns);
    ClosersComplete(open.elicitations, CloseElicitation);
    var e := Closers(open.elicitations, CloseElicitation);
    assert AnsweredPairs(Repairs(open)) == AnsweredPairs(e);
    forall id | id in open.elicitations
      ensures (open.elicitations[id].chat, id) in AnsweredPairs(Repairs(open))
    {
      assert CloseElicitation(id, open.elicitations[id]) in e;
    }
  }

  lemma UnansweredStep(open: set<(string, string)>, e: Event, chat: string, id: string)
    ensures (chat, id) in ObserveByChat(open, e.entry) <==>
              if e.entry.chat == chat && SpeaksOfElicitation(e, id) then AsksElicitation(e, id) else (chat, id) in open
  {
  }

  /** A chat's elicitation is unanswered exactly when the chat's last word on it is a request. */
  lemma {:induction false} UnansweredMeaning(rows: seq<Event>, chat: string, id: string)
    ensures (chat, id) in UnansweredByChat(rows) <==> exists i: nat :: LastElicitedIn(rows, chat, id, i)
  {
    if rows != [] {
      var front, e := rows[..|rows| - 1], rows[|rows| - 1];
      assert rows == front + [e];
      UnansweredMeaning(front, chat, id);
      UnansweredStep(UnansweredByChat(front), e, chat, id);
      assert UnansweredByChat(rows) == ObserveByChat(UnansweredByChat(front), e.entry);
      hide UnansweredByChat, ObserveByChat;
      forall i: nat
        ensures i < |front| ==>
                  (LastElicitedIn(rows, chat, id, i) <==>
                   LastElicitedIn(front, chat, id, i) && !(e.entry.chat == chat && SpeaksOfElicitation(e, id)))
        ensures LastElicitedIn(rows, chat, id, i) ==> i <= |front|
        ensures LastElicitedIn(front, chat, id, i) ==> i < |front|
      {
        ElicitedStep(front, e, chat, id, i);
      }
      ElicitedStep(front, e, chat, id, |front|);
      hide LastElicitedIn, AsksElicitation, EndsElicitation;
      if i: nat :| LastElicitedIn(front, chat, id, i) {
        assert LastElicitedIn(rows, chat, id, i) <==> !(e.entry.chat == chat && SpeaksOfElicitation(e, id));
      }
    }
  }

  /** In terms of the fold: each unanswered elicitation is the one recorded for its id. */
  lemma ClosedPerChatByFold(rows: seq<Event>)
    ensures UnansweredByChat(Recovered(rows)) == {} <==>
            forall chat, id :: (chat, id) in UnansweredByChat(rows) ==>
              id in Fold(rows).elicitations && Fold(rows).elicitations[id].chat == chat
  {
    var open := Fold(rows);
    RepairsAnswerRecordedOwners(open);
    ClosingByChat(rows, Repairs(open));
    var answered := AnsweredPairs(Repairs(open));
    assert UnansweredByChat(Recovered(rows)) == UnansweredByChat(rows) - answered;
    if UnansweredByChat(Recovered(rows)) == {} {
      forall chat, id | (chat, id) in UnansweredByChat(rows)
        ensures id in open.elicitations && open.elicitations[id].chat == chat
      {
        assert (chat, id) !in UnansweredByChat(Recovered(rows));
        assert (chat, id) in answered;
      }
    } else {
      var pair :| pair in UnansweredByChat(Recovered(rows));
      assert pair == (pair.0, pair.1) && pair !in answered;
    }
  }

  /** The rows after a chat's last word on an elicitation leave it alone, whatever their chat. */
  ghost predicate LeftAlone(rows: seq<Event>, id: string, i: nat) {
    forall j :: i < j < |rows| ==> !SpeaksOfElicitation(rows[j], id)
  }

  lemma RecordedExactlyWhenLeftAlone(rows: seq<Event>, chat: string, id: string, i: nat)
    requires LastElicitedIn(rows, chat, id, i)
    ensures id in Fold(rows).elicitations && Fold(rows).elicitations[id].chat == chat <==> LeftAlone(rows, id, i)
  {
    OpenElicitationMeaning(rows, id);
    if LeftAlone(rows, id, i) {
      assert LastElicited(rows, id, i);
    }
    if k: nat :| LastElicited(rows, id, k) && rows[k].entry.chat == chat {
      assert k == i;
    }
  }

  /** The fold keys elicitations by id alone, so recovery answers every chat's open elicitations exactly
      when, after the row that last asked for one in its chat, no row of any chat speaks of its id. */
  lemma ElicitationsClosedPerChat(rows: seq<Event>)
    ensures UnansweredByChat(Recovered(rows)) == {} <==>
            forall chat, id, i: nat :: LastElicitedIn(rows, chat, id, i) ==> LeftAlone(rows, id, i)
  {
    ClosedPerChatByFold(rows);
    forall chat, id, i: nat | LastElicitedIn(rows, chat, id, i)
      ensures (chat, id) in UnansweredByChat(rows)
      ensures LeftAlone(rows, id, i) <==> id in Fold(rows).elicitations && Fold(rows).elicitations[id].chat == chat
    {
      UnansweredMeaning(rows, chat, id);
      RecordedExactlyWhenLeftAlone(rows, chat, id, i);
    }
    forall chat, id | (chat, id) in UnansweredByChat(rows)
      ensures exists i: nat :: LastElicitedIn(rows, chat, id, i)
    {
      UnansweredMeaning(rows, chat, id);
    }
    hide *;
  }

  /** Two chats that reuse one elicitation id: recovery leaves the first chat's request unanswered. */
  lemma SharedElicitationIdStaysOpen()
    ensures var rows := [Event(1, Entry("a", "x", ElicitationRequest("7"))),
                         Event(2, Entry("b", "x", ElicitationRequest("7")))];
            ("a", "7") in UnansweredByChat(Recovered(rows))
  {
    var r1 := [Event(1, Entry("a", "x", ElicitationRequest("7")))];
    var rows := r1 + [Event(2, Entry("b", "x", ElicitationRequest("7")))];
    assert r1[..0] == [] && rows[..1] == r1;
    assert Fold(rows).elicitations == map["7" := Owner("b", "x")];
    assert UnansweredByChat(rows) == {("a", "7"), ("b", "7")};
    RepairsAnswerRecordedOwners(Fold(rows));
    ClosingByChat(rows, Owed(rows));
  }
}
