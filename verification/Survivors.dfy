/**
 The window under forgetting: against the events a run accepted and has not forgotten since.
 */
module Survivors {
  import opened Collections
  import opened Events
  import opened LogModel

  /** Follows a run over `known`: each accepted event joins, each forgotten chat's events go. */
  function Surviving(known: seq<Event>, s: Log, actions: seq<Action>): seq<Event>
    decreases |actions|
  {
    if actions == [] then known
    else
      var a := actions[0];
      var next := match a
        case Append(_, _, _) => known + Gain(s, a)
        case DeleteRows(_) => known
        case ForgetChat(chat) => Without(chat, known);
      Surviving(next, Apply(s, a), actions[1..])
  }

  /** Window and what the bound pushed out are together the surviving events, in order. */
  lemma {:induction false} WindowAndEvictedSurvive(s: Log, actions: seq<Action>)
    requires Inv(s)
    ensures Run(s, actions).evicted + Run(s, actions).window == Surviving(s.evicted + s.window, s, actions)
    decreases |actions|
  {
    if actions != [] {
      var a := actions[0];
      StepKeepsInv(s, a);
      match a {
        case Append(entry, _, _) =>
          AcceptAppends(s, entry);
          if Gain(s, a) == [] {
            assert s.evicted + s.window + [] == s.evicted + s.window;
          }
        case DeleteRows(_) =>
        case ForgetChat(chat) => FilterConcat(e => OtherChat(chat, e), s.evicted, s.window);
      }
      hide Inv, Without, Newest;
      WindowAndEvictedSurvive(Apply(s, a), actions[1..]);
    }
  }

  /** Every evicted event has at least `k` numbers after it. */
  ghost predicate Outrun(s: Log, k: nat) {
    forall e :: e in s.evicted ==> e.num + k < s.nextNum
  }

  lemma AcceptOutruns(s: Log, entry: Entry, k: nat)
    requires WindowInv(s) && Outrun(s, k) && k <= s.maxEntries
    ensures Outrun(Accept(s, entry), k)
  {
    var s' := Accept(s, entry);
    var all := s.window + [Event(s.nextNum, entry)];
    var pushed := |all| - |s'.window|;
    AscendingTail(s, entry);
    forall e | e in s'.evicted
      ensures e.num + k < s'.nextNum
    {
      if e !in s.evicted {
        var i :| 0 <= i < pushed && all[i] == e;
        NumbersApart(all, i, |all| - 1);
      }
    }
  }

  lemma AscendingTail(s: Log, entry: Entry)
    requires WindowInv(s)
    ensures Ascending(s.window + [Event(s.nextNum, entry)])
  {
    PiecesInOrder(s.evicted, s.window, s.nextNum);
  }

  lemma {:induction false} NumbersApart(events: seq<Event>, i: nat, j: nat)
    requires Ascending(events) && i <= j < |events|
    ensures events[i].num + (j - i) <= events[j].num
    decreases j - i
  {
    if i < j {
      NumbersApart(events, i, j - 1);
      assert events[j - 1].num < events[j].num;
    }
  }

  lemma {:induction false} RunOutruns(s: Log, actions: seq<Action>, k: nat)
    requires Inv(s) && Outrun(s, k) && k <= s.maxEntries
    ensures Outrun(Run(s, actions), k)
    decreases |actions|
  {
    if actions != [] {
      var a := actions[0];
      StepKeepsInv(s, a);
      match a {
        case Append(entry, _, _) => AcceptOutruns(s, entry, k);
        case DeleteRows(_) =>
        case ForgetChat(chat) => FilterMembers(e => OtherChat(chat, e), s.evicted);
      }
      assert Outrun(Apply(s, a), k) && Apply(s, a).maxEntries == s.maxEntries;
      hide Inv, Outrun, Apply;
      RunOutruns(Apply(s, a), actions[1..], k);
    }
  }

  lemma StartOutruns(rows: seq<Event>, maxEntries: nat)
    requires Ascending(rows)
    ensures Outrun(Started(rows, maxEntries), if maxEntries < REPLAY_LIMIT then maxEntries else REPLAY_LIMIT)
  {
    var s := Started(rows, maxEntries);
    NewestTwice(maxEntries, REPLAY_LIMIT, rows);
    forall e | e in s.evicted
      ensures e.num + |s.window| < s.nextNum
    {
      var i :| 0 <= i < |s.evicted| && rows[i] == e;
      NumbersApart(rows, i, |rows| - 1);
    }
  }

  /** In every run over a store: the window is an end of the surviving events within its bound, and
      holds every survivor among the newest numbers, as many as the bound and the startup query allow. */
  lemma WindowHoldsTheNewest(rows: seq<Event>, maxEntries: nat, actions: seq<Action>)
    requires Ascending(rows)
    ensures var s := Run(Started(rows, maxEntries), actions);
            var survivors := Surviving(rows, Started(rows, maxEntries), actions);
            && |s.window| <= maxEntries && |s.window| <= |survivors|
            && s.window == survivors[|survivors| - |s.window|..]
            && forall e :: e in survivors && e.num + maxEntries >= s.nextNum && e.num + REPLAY_LIMIT >= s.nextNum ==>
                 e in s.window
  {
    var s0 := Started(rows, maxEntries);
    var k := if maxEntries < REPLAY_LIMIT then maxEntries else REPLAY_LIMIT;
    StartKeepsInv(rows, maxEntries);
    StartOutruns(rows, maxEntries);
    RunKeepsInv(s0, actions);
    RunKeepsBound(s0, actions);
    RunOutruns(s0, actions, k);
    WindowAndEvictedSurvive(s0, actions);
    var s := Run(s0, actions);
    hide Run, Surviving;
    forall e | e in s.evicted + s.window && e.num + maxEntries >= s.nextNum && e.num + REPLAY_LIMIT >= s.nextNum
      ensures e in s.window
    {
      assert e in s.evicted || e in s.window;
    }
  }
}
