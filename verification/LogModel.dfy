/**
 The event log's specification: what an append, a failed append, a chat deletion and a restart do
 to sequence numbers, the durable rows, the bounded window and the broadcast, over every run.
 Class `EventLog` in EventLogs.dfy is the code tied to it.
 */
module LogModel {
  import opened Collections
  import opened Events

  /** The largest serialized event the log accepts. */
  const MAX_DURABLE_EVENT_BYTES: nat := 4 * 1024 * 1024
  /** Rows the startup query seeds the window from. */
  const REPLAY_LIMIT: nat := 10_000
  /** A sequence number must fit the database's signed 64-bit column. */
  const MAX_STORED_NUM: nat := 0x7FFF_FFFF_FFFF_FFFF

  // ------------------------------------------------------------ specification

  /** `rows` is the durable log when the log has a store. `published` lists what was broadcast,
      `evicted` what left the window by its bound alone, and `dropping` the chats whose rows are
      deleted but which are not yet forgotten. */
  datatype Log = Log(
    hasStore: bool,
    rows: seq<Event>,
    window: seq<Event>,
    minNum: nat,
    nextNum: nat,
    maxEntries: nat,
    failed: bool,
    published: seq<Event>,
    evicted: seq<Event>,
    dropping: set<string>)

  datatype Action =
    | Append(entry: Entry, fits: bool, saved: bool)
    | DeleteRows(chat: string)
    | ForgetChat(chat: string)

  function Fresh(maxEntries: nat): Log {
    Log(false, [], [], 0, 1, maxEntries, false, [], [], {})
  }

  function Started(rows: seq<Event>, maxEntries: nat): Log {
    var window := Newest(maxEntries, Newest(REPLAY_LIMIT, rows));
    var evicted := rows[..|rows| - |window|];
    var minNum := if window == [] then 0 else window[0].num;
    Log(true, rows, window, minNum, MaxNum(rows) + 1, maxEntries, false, [], evicted, {})
  }

  function Accept(s: Log, entry: Entry): Log {
    var e := Event(s.nextNum, entry);
    var window := Newest(s.maxEntries, s.window + [e]);
    s.(rows := if s.hasStore then s.rows + [e] else s.rows,
       window := window,
       minNum := if window == [] then s.minNum else window[0].num,
       nextNum := s.nextNum + 1,
       published := s.published + [e],
       evicted := s.evicted + (s.window + [e])[..|s.window| + 1 - |window|])
  }

  predicate OtherChat(chat: string, e: Event) {
    e.entry.chat != chat
  }

  function Without(chat: string, events: seq<Event>): seq<Event> {
    Filter(e => OtherChat(chat, e), events)
  }

  function Apply(s: Log, a: Action): Log {
    match a
    case Append(entry, fits, saved) =>
      if s.failed || !fits then s
      else if s.hasStore && !(saved && s.nextNum <= MAX_STORED_NUM) then s.(failed := true)
      else Accept(s, entry)
    case DeleteRows(chat) =>
      if s.hasStore then s.(rows := Without(chat, s.rows), dropping := s.dropping + {chat}) else s
    case ForgetChat(chat) =>
      s.(window := Without(chat, s.window), evicted := Without(chat, s.evicted), dropping := s.dropping - {chat})
  }

  function Run(s: Log, actions: seq<Action>): Log
    decreases |actions|
  {
    if actions == [] then s else Run(Apply(s, actions[0]), actions[1..])
  }

  lemma {:induction false} RunInPieces(s: Log, a: seq<Action>, b: seq<Action>)
    ensures Run(s, a + b) == Run(Run(s, a), b)
    decreases |a|
  {
    if a == [] {
      assert a + b == b;
    } else {
      assert (a + b)[0] == a[0] && (a + b)[1..] == a[1..] + b;
      RunInPieces(Apply(s, a[0]), a[1..], b);
    }
  }

  // ------------------------------------------------------------ invariant of every run

  ghost predicate Below(events: seq<Event>, bound: nat) {
    forall i :: 0 <= i < |events| ==> events[i].num < bound
  }

  /** Everything evicted is older than `minNum`, and the window starts no earlier than it. */
  ghost predicate WindowInv(s: Log) {
    && |s.window| <= s.maxEntries
    && Ascending(s.evicted + s.window) && Below(s.evicted + s.window, s.nextNum)
    && s.minNum < s.nextNum
    && (s.maxEntries >= 1 ==> Below(s.evicted, s.minNum))
    && (s.window != [] ==> s.minNum <= s.window[0].num)
  }

  /** Broadcast numbers have no gap. */
  ghost predicate NumbersInv(s: Log) {
    && |s.published| <= s.nextNum
    && forall i :: 0 <= i < |s.published| ==> s.published[i].num == s.nextNum - |s.published| + i
  }

  /** Whatever is in memory is durable, except while its chat is being deleted. */
  ghost predicate DurableInv(s: Log) {
    s.hasStore ==>
      && Ascending(s.rows) && Below(s.rows, s.nextNum)
      && forall e :: e in s.window ==> e in s.rows || e.entry.chat in s.dropping
  }

  ghost predicate Inv(s: Log) {
    WindowInv(s) && NumbersInv(s) && DurableInv(s)
  }

  lemma WithoutKeepsOrder(chat: string, events: seq<Event>, bound: nat)
    requires Ascending(events) && Below(events, bound)
    ensures Ascending(Without(chat, events)) && Below(Without(chat, events), bound)
    ensures forall e :: e in Without(chat, events) <==> e in events && e.entry.chat != chat
    ensures |Without(chat, events)| <= |events|
    ensures events != [] && Without(chat, events) != [] ==> events[0].num <= Without(chat, events)[0].num
  {
    FilterMembers(e => OtherChat(chat, e), events);
    FilterKeepsAscending(e => OtherChat(chat, e), events);
    var rest := Without(chat, events);
    forall i | 0 <= i < |rest|
      ensures rest[i].num < bound && events[0].num <= rest[i].num
    {
      assert rest[i] in rest;
    }
  }

  lemma EvictedPlusNewest<T>(n: nat, evicted: seq<T>, window: seq<T>, e: T)
    ensures evicted + (window + [e])[..|window| + 1 - |Newest(n, window + [e])|] + Newest(n, window + [e])
            == evicted + window + [e]
    ensures |Newest(n, window + [e])| <= n && (n >= 1 ==> Newest(n, window + [e]) != [])
  {
    var all := window + [e];
    var kept := Newest(n, all);
    NewestIsSuffix(n, all);
    var dropped := all[..|all| - |kept|];
    assert dropped + kept == all;
    assert evicted + dropped + kept == evicted + (dropped + kept);
    assert evicted + (window + [e]) == evicted + window + [e];
  }

  lemma AcceptAppends(s: Log, entry: Entry)
    ensures Accept(s, entry).evicted + Accept(s, entry).window == s.evicted + s.window + [Event(s.nextNum, entry)]
    ensures |Accept(s, entry).window| <= s.maxEntries
    ensures s.maxEntries >= 1 ==> Accept(s, entry).window != []
  {
    EvictedPlusNewest(s.maxEntries, s.evicted, s.window, Event(s.nextNum, entry));
  }

  lemma AcceptKeepsWindow(s: Log, entry: Entry)
    requires WindowInv(s)
    ensures WindowInv(Accept(s, entry))
  {
    var s' := Accept(s, entry);
    AcceptAppends(s, entry);
    var before := s.evicted + s.window;
    var joined := s'.evicted + s'.window;
    assert joined == before + [Event(s.nextNum, entry)];
    assert Ascending(joined) && Below(joined, s'.nextNum);
    if s'.window != [] {
      assert s'.window[0] == joined[|s'.evicted|] && s'.minNum == joined[|s'.evicted|].num;
      forall i | 0 <= i < |s'.evicted|
        ensures s'.evicted[i].num < s'.minNum
      {
        assert joined[i] == s'.evicted[i];
      }
    }
  }

  lemma AcceptKeepsDurable(s: Log, entry: Entry)
    requires DurableInv(s)
    ensures DurableInv(Accept(s, entry))
  {
    var e, s' := Event(s.nextNum, entry), Accept(s, entry);
    forall x | x in s'.window
      ensures x in s.window || x == e
    {
      var i :| 0 <= i < |s'.window| && s'.window[i] == x;
      assert x == (s.window + [e])[|s.window| + 1 - |s'.window| + i];
    }
    if s.hasStore {
      forall x | x in s'.window
        ensures x in s'.rows || x.entry.chat in s'.dropping
      {
        assert x in s.rows ==> x in s.rows + [e];
      }
    }
  }

  lemma AcceptKeepsNumbers(s: Log, entry: Entry)
    requires NumbersInv(s)
    ensures NumbersInv(Accept(s, entry))
  {
    hide Newest;
  }

  lemma AcceptKeepsInv(s: Log, entry: Entry)
    requires Inv(s)
    ensures Inv(Accept(s, entry))
  {
    hide WindowInv, DurableInv, NumbersInv, Accept;
    AcceptKeepsWindow(s, entry);
    AcceptKeepsDurable(s, entry);
    AcceptKeepsNumbers(s, entry);
  }

  lemma FailureKeepsInv(s: Log)
    requires Inv(s)
    ensures Inv(s.(failed := true))
  {
  }

  lemma ForgetKeepsOrder(evicted: seq<Event>, window: seq<Event>, chat: string, bound: nat)
    requires Ascending(evicted + window) && Below(evicted + window, bound)
    ensures Ascending(Without(chat, evicted) + Without(chat, window))
            && Below(Without(chat, evicted) + Without(chat, window), bound)
    ensures |Without(chat, window)| <= |window|
    ensures window != [] && Without(chat, window) != [] ==> window[0].num <= Without(chat, window)[0].num
  {
    hide Ascending, Below, Filter;
    FilterConcat(e => OtherChat(chat, e), evicted, window);
    WithoutKeepsOrder(chat, evicted + window, bound);
    PiecesInOrder(evicted, window, bound);
    WithoutKeepsOrder(chat, window, bound);
  }

  lemma ForgetKeepsBound(evicted: seq<Event>, window: seq<Event>, chat: string, bound: nat, least: nat)
    requires Ascending(evicted + window) && Below(evicted + window, bound) && Below(evicted, least)
    ensures Below(Without(chat, evicted), least)
  {
    hide Ascending, Below, Filter;
    PiecesInOrder(evicted, window, bound);
    WithoutKeepsOrder(chat, evicted, least);
  }

  lemma ForgetKeepsWindow(s: Log, chat: string)
    requires WindowInv(s)
    ensures WindowInv(Apply(s, ForgetChat(chat)))
  {
    hide Ascending, Below, Without;
    ForgetKeepsOrder(s.evicted, s.window, chat, s.nextNum);
    if s.maxEntries >= 1 {
      ForgetKeepsBound(s.evicted, s.window, chat, s.nextNum, s.minNum);
    }
    WithoutNothing(chat);
  }

  lemma WithoutNothing(chat: string)
    ensures Without(chat, []) == []
  {
  }

  lemma PiecesInOrder(a: seq<Event>, b: seq<Event>, bound: nat)
    requires Ascending(a + b) && Below(a + b, bound)
    ensures Ascending(a) && Ascending(b) && Below(b, bound)
  {
    assert a == (a + b)[..|a|] && b == (a + b)[|a|..];
  }

  lemma ForgetKeepsInv(s: Log, chat: string)
    requires Inv(s)
    ensures Inv(Apply(s, ForgetChat(chat)))
  {
    hide WindowInv, Ascending;
    ForgetKeepsWindow(s, chat);
    FilterMembers(e => OtherChat(chat, e), s.window);
  }

  lemma DeleteKeepsInv(s: Log, chat: string)
    requires Inv(s)
    ensures Inv(Apply(s, DeleteRows(chat)))
  {
    if s.hasStore {
      WithoutKeepsOrder(chat, s.rows, s.nextNum);
    }
  }

  lemma StepKeepsInv(s: Log, a: Action)
    requires Inv(s)
    ensures Inv(Apply(s, a))
    ensures Apply(s, a).nextNum - |Apply(s, a).published| == s.nextNum - |s.published|
  {
    match a
    case Append(entry, _, _) => AcceptKeepsInv(s, entry);
    case DeleteRows(chat) => DeleteKeepsInv(s, chat);
    case ForgetChat(chat) => ForgetKeepsInv(s, chat);
  }

  /** Every run keeps the invariant, and numbers what it broadcasts consecutively from its start. */
  lemma {:induction false} RunKeepsInv(s: Log, actions: seq<Action>)
    requires Inv(s)
    ensures Inv(Run(s, actions))
    ensures Run(s, actions).nextNum - |Run(s, actions).published| == s.nextNum - |s.published|
    decreases |actions|
  {
    if actions != [] {
      StepKeepsInv(s, actions[0]);
      RunKeepsInv(Apply(s, actions[0]), actions[1..]);
    }
  }

  lemma {:induction false} RunKeepsBound(s: Log, actions: seq<Action>)
    ensures Run(s, actions).maxEntries == s.maxEntries && Run(s, actions).hasStore == s.hasStore
    decreases |actions|
  {
    if actions != [] {
      RunKeepsBound(Apply(s, actions[0]), actions[1..]);
    }
  }

  lemma NewestIsSuffix<T>(n: nat, s: seq<T>)
    ensures |Newest(n, s)| <= |s| && Newest(n, s) == s[|s| - |Newest(n, s)|..]
    ensures |Newest(n, s)| == if |s| <= n then |s| else n
  {
  }

  lemma NewestTwice<T>(n: nat, m: nat, s: seq<T>)
    ensures |Newest(n, Newest(m, s))| <= |s| && |Newest(n, Newest(m, s))| <= n
    ensures Newest(n, Newest(m, s)) == s[|s| - |Newest(n, Newest(m, s))|..]
    ensures n >= 1 && m >= 1 && Newest(n, Newest(m, s)) == [] ==> s == []
  {
    NewestIsSuffix(m, s);
    NewestIsSuffix(n, Newest(m, s));
  }

  lemma FreshKeepsInv(maxEntries: nat)
    ensures Inv(Fresh(maxEntries))
  {
  }

  lemma StartKeepsInv(rows: seq<Event>, maxEntries: nat)
    requires Ascending(rows)
    ensures Inv(Started(rows, maxEntries))
    ensures Started(rows, maxEntries).evicted + Started(rows, maxEntries).window == rows
  {
    NewestTwice(maxEntries, REPLAY_LIMIT, rows);
    hide Inv, Ascending, MaxNum, Newest;
    SuffixStartsInv(Started(rows, maxEntries));
  }

  lemma SuffixStartsInv(s: Log)
    requires s.hasStore && Ascending(s.rows) && s.nextNum == MaxNum(s.rows) + 1 && s.published == []
    requires |s.window| <= |s.rows| && s.window == s.rows[|s.rows| - |s.window|..]
             && s.evicted == s.rows[..|s.rows| - |s.window|]
    requires |s.window| <= s.maxEntries && s.minNum == (if s.window == [] then 0 else s.window[0].num)
    requires s.maxEntries >= 1 && s.window == [] ==> s.rows == []
    ensures Inv(s) && s.evicted + s.window == s.rows
  {
    assert s.evicted + s.window == s.rows;
    assert Below(s.rows, s.nextNum);
    SuffixStartsWindow(s);
    hide WindowInv, Ascending, Below;
    forall e | e in s.window
      ensures e in s.rows
    {
      assert e in s.evicted + s.window;
    }
  }

  lemma SuffixStartsWindow(s: Log)
    requires s.evicted + s.window == s.rows && Ascending(s.rows) && Below(s.rows, s.nextNum) && s.nextNum >= 1
    requires |s.window| <= s.maxEntries && s.minNum == (if s.window == [] then 0 else s.window[0].num)
    requires s.maxEntries >= 1 && s.window == [] ==> s.rows == []
    ensures WindowInv(s)
  {
    if s.window != [] {
      assert s.window[0] == s.rows[|s.evicted|];
      forall i | 0 <= i < |s.evicted|
        ensures s.evicted[i].num < s.minNum
      {
        assert s.evicted[i] == s.rows[i];
      }
    }
  }

  // ------------------------------------------------------------ refinement

  /** No chat is deleted or forgotten in the run. */
  predicate AppendsOnly(actions: seq<Action>) {
    forall a :: a in actions ==> a.Append?
  }

  /** What one append adds to the log: its event, or nothing when it is refused or fails. */
  function Gain(s: Log, a: Action): seq<Event> {
    if a.Append? && !s.failed && a.fits && (s.hasStore ==> a.saved && s.nextNum <= MAX_STORED_NUM)
    then [Event(s.nextNum, a.entry)] else []
  }

  lemma AppendEffect(s: Log, a: Action)
    requires a.Append? && |s.window| <= s.maxEntries
    ensures Apply(s, a).published == s.published + Gain(s, a)
    ensures s.hasStore ==> Apply(s, a).rows == s.rows + Gain(s, a)
    ensures Apply(s, a).window == Newest(s.maxEntries, s.window + Gain(s, a))
    ensures s.nextNum <= Apply(s, a).nextNum == s.nextNum + |Gain(s, a)|
    ensures Apply(s, a).maxEntries == s.maxEntries && Apply(s, a).hasStore == s.hasStore
            && |Apply(s, a).window| <= s.maxEntries
  {
    if Gain(s, a) == [] {
      assert s.published + [] == s.published && s.rows + [] == s.rows && s.window + [] == s.window;
    }
  }

  /** With appends alone, the durable log is the rows at startup followed by exactly what was
      broadcast, the window is its newest part, and a failed store freezes everything. */
  lemma {:induction false} LogRefinement(s: Log, actions: seq<Action>)
    requires s.hasStore && |s.window| <= s.maxEntries && AppendsOnly(actions)
    ensures s.published <= Run(s, actions).published
    ensures Run(s, actions).rows == s.rows + Run(s, actions).published[|s.published|..]
    ensures Run(s, actions).window == Newest(s.maxEntries, s.window + Run(s, actions).published[|s.published|..])
    ensures s.failed ==> Run(s, actions) == s
    decreases |actions|
  {
    if actions == [] {
      assert s.published[|s.published|..] == [];
      assert s.rows + [] == s.rows && s.window + [] == s.window;
    } else {
      var a := actions[0];
      assert a.Append? by { assert a in actions; }
      assert AppendsOnly(actions[1..]) by { assert forall x :: x in actions[1..] ==> x in actions; }
      var s1, s', gain := Apply(s, a), Run(s, actions), Gain(s, a);
      AppendEffect(s, a);
      assert s.failed ==> s1 == s;
      LogRefinement(s1, actions[1..]);
      LogRefinementJoin(s, s1, s', gain);
    }
  }

  lemma LogRefinementJoin(s: Log, s1: Log, s': Log, gain: seq<Event>)
    requires s1.published == s.published + gain && s1.published <= s'.published
    requires s1.rows == s.rows + gain && s'.rows == s1.rows + s'.published[|s1.published|..]
    requires s1.maxEntries == s.maxEntries && s1.window == Newest(s.maxEntries, s.window + gain)
    requires s'.window == Newest(s.maxEntries, s1.window + s'.published[|s1.published|..])
    ensures s.published <= s'.published && s'.rows == s.rows + s'.published[|s.published|..]
    ensures s'.window == Newest(s.maxEntries, s.window + s'.published[|s.published|..])
  {
    hide Newest;
    var tail := s'.published[|s1.published|..];
    assert s'.published[|s.published|..] == gain + tail;
    assert s.rows + gain + tail == s.rows + (gain + tail);
    NewestOfNewest(s.maxEntries, s.window + gain, tail);
    assert s.window + gain + tail == s.window + (gain + tail);
  }

  // ------------------------------------------------------------ recovery as a run

  function AppendsOf(entries: seq<Entry>): seq<Action> {
    seq(|entries|, i requires 0 <= i < |entries| => Append(entries[i], true, true))
  }

  lemma {:induction false} FailureSticks(s: Log, entries: seq<Entry>)
    requires s.failed
    ensures Run(s, AppendsOf(entries)) == s
    decreases |entries|
  {
    if entries != [] {
      assert AppendsOf(entries)[1..] == AppendsOf(entries[1..]);
      FailureSticks(s, entries[1..]);
    }
  }

  /** Appending entries one after the other, none failing, makes exactly `Extend` durable. */
  lemma {:induction false} AppendsExtend(s: Log, entries: seq<Entry>)
    requires s.hasStore && s.nextNum == MaxNum(s.rows) + 1 && !Run(s, AppendsOf(entries)).failed
    ensures Run(s, AppendsOf(entries)).rows == Extend(s.rows, entries)
    ensures Run(s, AppendsOf(entries)).nextNum == MaxNum(Run(s, AppendsOf(entries)).rows) + 1
    decreases |entries|
  {
    if entries != [] {
      var s1 := Apply(s, AppendsOf(entries)[0]);
      assert AppendsOf(entries)[1..] == AppendsOf(entries[1..]);
      if s1.failed {
        FailureSticks(s1, entries[1..]);
      } else {
        AppendsExtend(s1, entries[1..]);
      }
    }
  }

  lemma RunNothing(s: Log)
    ensures Run(s, AppendsOf([])) == s
  {
  }

  lemma AppendsSnoc(entries: seq<Entry>, entry: Entry)
    ensures AppendsOf(entries + [entry]) == AppendsOf(entries) + [Append(entry, true, true)]
  {
  }

  lemma RunSnoc(s: Log, actions: seq<Action>, a: Action)
    ensures Run(s, actions + [a]) == Apply(Run(s, actions), a)
  {
    RunInPieces(s, actions, [a]);
    assert [a][1..] == [];
    assert Run(Run(s, actions), [a]) == Run(Apply(Run(s, actions), a), []);
  }
}
