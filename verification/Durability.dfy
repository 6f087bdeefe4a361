/**
 What becomes durable and how numbering goes on: against every run of appends, failures, chat
 deletions and forgets over a store.
 */
module Durability {
  import opened Collections
  import opened Events
  import opened LogModel

  // ------------------------------------------------------------ broadcast and durable rows

  lemma {:induction false} BroadcastGrows(s: Log, actions: seq<Action>)
    ensures s.published <= Run(s, actions).published
    decreases |actions|
  {
    if actions != [] {
      BroadcastGrows(Apply(s, actions[0]), actions[1..]);
    }
  }

  predicate DeletesNothing(actions: seq<Action>) {
    forall a :: a in actions ==> !a.DeleteRows?
  }

  /** In every run without chat deletion, forgets included, the durable log is the rows it began with
      followed by exactly what was broadcast. */
  lemma {:induction false} DurableIsStartAndBroadcast(s: Log, actions: seq<Action>)
    requires s.hasStore && DeletesNothing(actions)
    ensures s.published <= Run(s, actions).published
    ensures Run(s, actions).rows == s.rows + Run(s, actions).published[|s.published|..]
    decreases |actions|
  {
    BroadcastGrows(s, actions);
    if actions == [] {
      assert s.published[|s.published|..] == [] && s.rows + [] == s.rows;
    } else {
      var a := actions[0];
      var s1 := Apply(s, a);
      assert a in actions && DeletesNothing(actions[1..]) by { assert forall x :: x in actions[1..] ==> x in actions; }
      assert s1.published == s.published + Gain(s, a) && s1.rows == s.rows + Gain(s, a);
      hide Apply, Gain;
      DurableIsStartAndBroadcast(s1, actions[1..]);
      SplitGain(s.rows, s.published, Gain(s, a), Run(s, actions).published);
    }
  }

  lemma SplitGain(rows: seq<Event>, published: seq<Event>, gain: seq<Event>, all: seq<Event>)
    requires published + gain <= all
    ensures rows + gain + all[|published + gain|..] == rows + all[|published|..]
  {
    assert all[|published|..] == gain + all[|published + gain|..];
  }

  /** A row numbered below the next number stays exactly while its chat is not deleted, and never comes back. */
  lemma {:induction false} StaysUnlessDeleted(s: Log, actions: seq<Action>, e: Event)
    requires s.hasStore && e.num < s.nextNum
    ensures e in Run(s, actions).rows <==> e in s.rows && DeleteRows(e.entry.chat) !in actions
    decreases |actions|
  {
    if actions != [] {
      var a := actions[0];
      var s1 := Apply(s, a);
      if a.DeleteRows? {
        FilterMembers(x => OtherChat(a.chat, x), s.rows);
      }
      assert e in s1.rows <==> e in s.rows && a != DeleteRows(e.entry.chat);
      assert s.nextNum <= s1.nextNum && s1.hasStore;
      assert actions == [a] + actions[1..];
      hide Apply;
      StaysUnlessDeleted(s1, actions[1..], e);
    }
  }

  /** In every run an event that was broadcast is durable exactly unless its chat's rows were deleted
      after it was. */
  lemma BroadcastIsDurableUnlessDeleted(s: Log, before: seq<Action>, a: Action, after: seq<Action>, e: Event)
    requires s.hasStore && Gain(Run(s, before), a) == [e]
    ensures e in Run(s, before + [a] + after).published
    ensures e in Run(s, before + [a] + after).rows <==> DeleteRows(e.entry.chat) !in after
  {
    var s1 := Run(s, before);
    var s2 := Apply(s1, a);
    KeepsStore(s, before);
    assert s2.rows == s1.rows + [e] && s2.published == s1.published + [e] && e.num < s2.nextNum;
    assert s2.rows[|s1.rows|] == e && s2.published[|s1.published|] == e;
    hide Apply, Gain;
    RunInPieces(s, before, [a] + after);
    assert before + [a] + after == before + ([a] + after);
    assert ([a] + after)[0] == a && ([a] + after)[1..] == after;
    StaysUnlessDeleted(s2, after, e);
    BroadcastGrows(s2, after);
  }

  lemma {:induction false} KeepsStore(s: Log, actions: seq<Action>)
    ensures Run(s, actions).hasStore == s.hasStore
    decreases |actions|
  {
    if actions != [] {
      KeepsStore(Apply(s, actions[0]), actions[1..]);
    }
  }

  /** After one store failure nothing is numbered, broadcast or made durable any more, whatever comes. */
  lemma {:induction false} FailureIsFinal(s: Log, actions: seq<Action>)
    requires s.failed
    ensures var s' := Run(s, actions);
            && s'.failed && s'.nextNum == s.nextNum && s'.published == s.published
            && forall e :: e in s'.rows ==> e in s.rows
    decreases |actions|
  {
    if actions != [] {
      var a := actions[0];
      if a.DeleteRows? {
        FilterMembers(x => OtherChat(a.chat, x), s.rows);
      }
      FailureIsFinal(Apply(s, a), actions[1..]);
    }
  }

  // ------------------------------------------------------------ numbering across a restart

  /** What became of the newest event: the last one accepted, or the last row at startup. */
  datatype Newest = NoEvent | Kept(chat: string) | Deleted

  function NewestAtStart(rows: seq<Event>): Newest {
    if rows == [] then NoEvent else Kept(rows[|rows| - 1].entry.chat)
  }

  function NewestStep(s: Log, n: Newest, a: Action): Newest {
    match a
    case Append(entry, _, _) => if Gain(s, a) == [] then n else Kept(entry.chat)
    case DeleteRows(chat) => if n == Kept(chat) then Deleted else n
    case ForgetChat(_) => n
  }

  function NewestAfter(s: Log, n: Newest, actions: seq<Action>): Newest
    decreases |actions|
  {
    if actions == [] then n else NewestAfter(Apply(s, actions[0]), NewestStep(s, n, actions[0]), actions[1..])
  }

  /** Every log allocates its numbers from 1 on. */
  predicate NumberedFromOne(rows: seq<Event>) {
    rows != [] ==> rows[0].num >= 1
  }

  predicate NewestInv(s: Log, n: Newest) {
    match n
    case NoEvent => s.rows == [] && s.nextNum == 1
    case Kept(chat) =>
      s.rows != [] && s.rows[|s.rows| - 1].num + 1 == s.nextNum && s.nextNum >= 2
        && s.rows[|s.rows| - 1].entry.chat == chat
    case Deleted => MaxNum(s.rows) + 1 < s.nextNum
  }

  lemma LastSurvivor(chat: string, rows: seq<Event>)
    requires Ascending(rows) && rows != []
    ensures var rest, last := Without(chat, rows), rows[|rows| - 1];
            if last.entry.chat != chat then rest != [] && rest[|rest| - 1] == last
            else rest == [] || rest[|rest| - 1].num < last.num
    ensures Without(chat, rows) == [] || Without(chat, rows)[|Without(chat, rows)| - 1].num <= rows[|rows| - 1].num
  {
    var front, last := rows[..|rows| - 1], rows[|rows| - 1];
    assert rows == front + [last];
    FilterConcat(e => OtherChat(chat, e), front, [last]);
    assert Filter(e => OtherChat(chat, e), [last]) == if OtherChat(chat, last) then [last] else [];
    WithoutKeepsOrder(chat, front, last.num);
  }

  lemma DeleteKeepsNewest(s: Log, n: Newest, chat: string)
    requires s.hasStore && Ascending(s.rows) && Below(s.rows, s.nextNum) && NewestInv(s, n)
    ensures NewestInv(Apply(s, DeleteRows(chat)), NewestStep(s, n, DeleteRows(chat)))
  {
    if s.rows == [] {
      assert Without(chat, s.rows) == [];
    } else {
      LastSurvivor(chat, s.rows);
    }
    hide Without, Ascending;
  }

  lemma NewestStepKeepsInv(s: Log, n: Newest, a: Action)
    requires Inv(s) && s.hasStore && NewestInv(s, n)
    ensures NewestInv(Apply(s, a), NewestStep(s, n, a))
  {
    hide WindowInv, NumbersInv, Ascending;
    if a.DeleteRows? {
      DeleteKeepsNewest(s, n, a.chat);
    }
  }

  lemma {:induction false} NewestIsTracked(s: Log, n: Newest, actions: seq<Action>)
    requires Inv(s) && s.hasStore && NewestInv(s, n)
    ensures NewestInv(Run(s, actions), NewestAfter(s, n, actions))
    decreases |actions|
  {
    if actions != [] {
      NewestStepKeepsInv(s, n, actions[0]);
      StepKeepsInv(s, actions[0]);
      hide Inv, Apply, NewestInv, NewestStep;
      assert Apply(s, actions[0]).hasStore by { KeepsStore(s, [actions[0]]); OneStep(s, actions[0]); }
      NewestIsTracked(Apply(s, actions[0]), NewestStep(s, n, actions[0]), actions[1..]);
    }
  }

  lemma OneStep(s: Log, a: Action)
    ensures Run(s, [a]) == Apply(s, a)
  {
    assert [a][1..] == [];
    assert Run(s, [a]) == Run(Apply(s, a), []);
  }

  /** In every run over a store a restart would number on from where this process stopped exactly unless
      the chat of the newest event had its rows deleted after that event; then it hands numbers out again. */
  lemma NumberingContinuesExactly(rows: seq<Event>, maxEntries: nat, actions: seq<Action>)
    requires Ascending(rows) && NumberedFromOne(rows)
    ensures var s0 := Started(rows, maxEntries);
            var s := Run(s0, actions);
            && (Started(s.rows, maxEntries).nextNum == s.nextNum <==>
                  NewestAfter(s0, NewestAtStart(rows), actions) != Deleted)
            && Started(s.rows, maxEntries).nextNum <= s.nextNum
  {
    hide *;
    var s0 := Started(rows, maxEntries);
    StartKeepsInv(rows, maxEntries);
    NewestInvAtStart(rows, maxEntries);
    NewestIsTracked(s0, NewestAtStart(rows), actions);
    StartedNumber(Run(s0, actions).rows, maxEntries);
    NewestInvMeaning(Run(s0, actions), NewestAfter(s0, NewestAtStart(rows), actions));
  }

  lemma NewestInvAtStart(rows: seq<Event>, maxEntries: nat)
    requires Ascending(rows) && NumberedFromOne(rows)
    ensures NewestInv(Started(rows, maxEntries), NewestAtStart(rows)) && Started(rows, maxEntries).hasStore
  {
    StartedNumber(rows, maxEntries);
    hide Started;
    assert rows != [] ==> rows[0].num <= rows[|rows| - 1].num;
  }

  lemma NewestInvMeaning(s: Log, n: Newest)
    requires NewestInv(s, n)
    ensures MaxNum(s.rows) + 1 <= s.nextNum && (MaxNum(s.rows) + 1 == s.nextNum <==> n != Deleted)
  {
  }

  lemma StartedNumber(rows: seq<Event>, maxEntries: nat)
    ensures var s := Started(rows, maxEntries); s.nextNum == MaxNum(rows) + 1 && s.rows == rows && s.hasStore
  {
    hide Collections.Newest;
  }

  lemma {:induction false} NothingDeletedNothingLost(s: Log, n: Newest, actions: seq<Action>)
    requires n != Deleted && DeletesNothing(actions)
    ensures NewestAfter(s, n, actions) != Deleted
    decreases |actions|
  {
    if actions != [] {
      assert actions[0] in actions && forall x :: x in actions[1..] ==> x in actions;
      NothingDeletedNothingLost(Apply(s, actions[0]), NewestStep(s, n, actions[0]), actions[1..]);
    }
  }

  /** So without deletions, forgets included, it always continues. */
  lemma RestartContinuesNumbering(rows: seq<Event>, maxEntries: nat, actions: seq<Action>)
    requires Ascending(rows) && NumberedFromOne(rows) && DeletesNothing(actions)
    ensures MaxNum(Run(Started(rows, maxEntries), actions).rows) + 1 == Run(Started(rows, maxEntries), actions).nextNum
  {
    NothingDeletedNothingLost(Started(rows, maxEntries), NewestAtStart(rows), actions);
    NumberingContinuesExactly(rows, maxEntries, actions);
  }

  /** Deleting the chat that holds the newest row lets a restart hand the same number out again. */
  lemma DeletionReusesNumbers()
    ensures var actions := [Append(Entry("a", "x", Other("m")), true, true), DeleteRows("a"), ForgetChat("a")];
            Run(Started([], 10), actions).nextNum == 2
            && Started(Run(Started([], 10), actions).rows, 10).nextNum == 1
  {
    var s0, entry := Started([], 10), Entry("a", "x", Other("m"));
    var s1 := Accept(s0, entry);
    assert s1.rows == [Event(1, entry)];
    WithoutKeepsOrder("a", s1.rows, 2);
    assert Without("a", s1.rows) == [] by {
      FilterDropsAll(e => OtherChat("a", e), s1.rows);
    }
    var actions := [Append(entry, true, true), DeleteRows("a"), ForgetChat("a")];
    assert actions[1..] == [DeleteRows("a"), ForgetChat("a")];
    assert actions[1..][1..] == [ForgetChat("a")];
    var s2 := Apply(s1, DeleteRows("a"));
    assert Apply(s0, actions[0]) == s1;
    assert Run(s0, actions) == Run(s1, actions[1..]) == Run(s2, actions[1..][1..]);
    assert Run(s2, [ForgetChat("a")]) == Run(Apply(s2, ForgetChat("a")), []) by {
      assert [ForgetChat("a")][1..] == [];
    }
  }
}
