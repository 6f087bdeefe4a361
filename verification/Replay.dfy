/**
 Replay: the reference answer, the page query, and when a log without a store answers in full.
 */
module Replay {
  import opened Collections
  import Durability
  import opened Events
  import opened LogModel

  // ------------------------------------------------------------ replay

  datatype ReplayResult =
    | Complete(events: seq<Event>)
    | Partial(events: seq<Event>, oldestAvailable: nat)

  predicate InRange(from: nat, through: nat, e: Event) {
    from <= e.num <= through
  }

  /** The reference answer of a replay: the rows numbered `from` to `through`. */
  function Between(rows: seq<Event>, from: nat, through: nat): seq<Event> {
    Filter(e => InRange(from, through, e), rows)
  }

  /** The store's page query: the first `limit` rows of the range, ascending. */
  function Page(rows: seq<Event>, from: nat, through: nat, limit: nat): seq<Event> {
    var range := Between(rows, from, through);
    if |range| <= limit then range else range[..limit]
  }

  /** A page never exceeds its limit, and is the front of the range: all of it when that fits. */
  lemma PageMeaning(rows: seq<Event>, from: nat, through: nat, limit: nat)
    ensures |Page(rows, from, through, limit)| <= limit
    ensures Page(rows, from, through, limit) <= Between(rows, from, through)
    ensures |Page(rows, from, through, limit)| == limit
            || Page(rows, from, through, limit) == Between(rows, from, through)
  {
  }

  lemma {:induction false} BetweenSplits(rows: seq<Event>, from: nat, mid: nat, through: nat)
    requires Ascending(rows) && from <= mid <= through + 1
    ensures Between(rows, from, through)
            == (if mid == 0 then [] else Between(rows, from, mid - 1)) + Between(rows, mid, through)
  {
    if rows != [] {
      BetweenSplits(rows[1..], from, mid, through);
      if rows[0].num >= mid {
        forall e | e in rows
          ensures mid == 0 || !InRange(from, mid - 1, e)
        {
          var i :| 0 <= i < |rows| && rows[i] == e;
        }
        if mid > 0 {
          FilterDropsAll(e => InRange(from, mid - 1, e), rows);
        }
      }
    }
  }

  lemma BetweenIsAscending(rows: seq<Event>, from: nat, through: nat)
    requires Ascending(rows)
    ensures Ascending(Between(rows, from, through))
    ensures forall e :: e in Between(rows, from, through) <==> e in rows && from <= e.num <= through
  {
    FilterMembers(e => InRange(from, through, e), rows);
    FilterKeepsAscending(e => InRange(from, through, e), rows);
  }

  lemma {:induction false} RangePrefix(rows: seq<Event>, from: nat, through: nat, k: nat)
    requires Ascending(rows) && 0 < k <= |Between(rows, from, through)|
    ensures from <= Between(rows, from, through)[k - 1].num <= through
    ensures Between(rows, from, through)[..k] == Between(rows, from, Between(rows, from, through)[k - 1].num)
  {
    var first, rest := rows[0], rows[1..];
    if !InRange(from, through, first) {
      RangePrefix(rest, from, through, k);
      assert first.num < from by {
        FilterMembers(e => InRange(from, through, e), rest);
        assert Between(rest, from, through)[0] in rest;
      }
    } else if k == 1 {
      FilterDropsAll(e => InRange(from, first.num, e), rest);
    } else {
      RangePrefix(rest, from, through, k - 1);
      var last := Between(rest, from, through)[k - 2];
      assert Between(rows, from, through) == [first] + Between(rest, from, through);
      assert first.num <= last.num by {
        FilterMembers(e => InRange(from, through, e), rest);
        assert last in rest;
      }
    }
  }

  /** A non-empty page is exactly the range up to its own last number. */
  lemma PageIsRangeToItsLast(rows: seq<Event>, from: nat, through: nat, limit: nat)
    requires Ascending(rows) && Page(rows, from, through, limit) != []
    ensures from <= Page(rows, from, through, limit)[|Page(rows, from, through, limit)| - 1].num <= through
    ensures Page(rows, from, through, limit)
            == Between(rows, from, Page(rows, from, through, limit)[|Page(rows, from, through, limit)| - 1].num)
  {
    RangePrefix(rows, from, through, |Page(rows, from, through, limit)|);
  }

  lemma BetweenIgnoresLaterRows(rows: seq<Event>, later: seq<Event>, from: nat, through: nat)
    requires forall e :: e in later ==> e.num > through
    ensures Between(rows + later, from, through) == Between(rows, from, through)
  {
    FilterConcat(e => InRange(from, through, e), rows, later);
    FilterDropsAll(e => InRange(from, through, e), later);
  }

  // ------------------------------------------------------------ replay without a store

  predicate Reaches(from: nat, e: Event) {
    e.num >= from
  }

  /** The in-memory answer: `oldest` is the oldest number as read before the lock was taken, `window`
      what was found under it. */
  function ReplayWith(oldest: nat, window: seq<Event>, from: nat): ReplayResult {
    if from > 0 && from < oldest && oldest > 0 then Partial(window, oldest)
    else Complete(Filter(e => Reaches(from, e), window))
  }

  /** An answer is partial exactly below the oldest number read, and then holds the whole window; a complete
      one holds exactly the window's events from the start number on, ascending. */
  lemma ReplayWithMeaning(oldest: nat, window: seq<Event>, from: nat)
    requires Ascending(window)
    ensures var answer := ReplayWith(oldest, window, from);
            && (answer.Partial? <==> 0 < from < oldest)
            && (answer.Partial? ==> answer.events == window && answer.oldestAvailable == oldest)
            && (answer.Complete? ==> forall e :: e in answer.events <==> e in window && e.num >= from)
            && Ascending(answer.events)
  {
    FilterMembers(e => Reaches(from, e), window);
    FilterKeepsAscending(e => Reaches(from, e), window);
  }

  /** Every event accepted and not forgotten, from `from` on. */
  function Unforgotten(s: Log, from: nat): seq<Event> {
    Filter(e => Reaches(from, e), s.evicted + s.window)
  }

  /** The number from which an answer claims to hold everything. */
  function ClaimedFrom(answer: ReplayResult, from: nat): nat {
    match answer
    case Complete(_) => from
    case Partial(_, oldest) => oldest
  }

  ghost predicate OmitsNothing(answer: ReplayResult, s: Log, from: nat) {
    answer.events == Unforgotten(s, ClaimedFrom(answer, from))
  }

  ghost predicate NoneBelow(events: seq<Event>, bound: nat) {
    forall e :: e in events ==> e.num >= bound
  }

  /** An answer omits nothing exactly when everything the bound pushed out is older than it claims to reach. */
  lemma ReplayFullExactly(oldest: nat, s: Log, from: nat)
    requires NoneBelow(s.window, oldest)
    ensures var answer := ReplayWith(oldest, s.window, from);
            OmitsNothing(answer, s, from) <==> Below(s.evicted, ClaimedFrom(answer, from))
  {
    var answer := ReplayWith(oldest, s.window, from);
    var claimed := ClaimedFrom(answer, from);
    var pushedOut := Filter(e => Reaches(claimed, e), s.evicted);
    FilterConcat(e => Reaches(claimed, e), s.evicted, s.window);
    FilterMembers(e => Reaches(claimed, e), s.evicted);
    if answer.Partial? {
      FilterKeepsAll(e => Reaches(oldest, e), s.window);
    }
    assert Unforgotten(s, claimed) == pushedOut + answer.events;
    if Below(s.evicted, claimed) {
      FilterDropsAll(e => Reaches(claimed, e), s.evicted);
      assert [] + answer.events == answer.events;
    } else {
      var i :| 0 <= i < |s.evicted| && s.evicted[i].num >= claimed;
      assert s.evicted[i] in pushedOut;
    }
  }

  /** How many events a run accepts. */
  function Accepts(s: Log, actions: seq<Action>): int {
    |Run(s, actions).published| - |s.published|
  }

  lemma {:induction false} QuietRunOnlyForgets(s: Log, actions: seq<Action>)
    requires Accepts(s, actions) == 0
    ensures forall e :: e in Run(s, actions).evicted ==> e in s.evicted
    ensures forall e :: e in Run(s, actions).window ==> e in s.window
    decreases |actions|
  {
    if actions != [] {
      var s1 := Apply(s, actions[0]);
      Durability.BroadcastGrows(s1, actions[1..]);
      assert s.published <= s1.published;
      if actions[0].ForgetChat? {
        FilterMembers(e => OtherChat(actions[0].chat, e), s.evicted);
        FilterMembers(e => OtherChat(actions[0].chat, e), s.window);
      }
      QuietRunOnlyForgets(s1, actions[1..]);
    }
  }

  /** The answer of a replay that reads the oldest number in `s` and the window after `between`. */
  ghost predicate ReplayIsFull(s: Log, between: seq<Action>, from: nat) {
    OmitsNothing(ReplayWith(s.minNum, Run(s, between).window, from), Run(s, between), from)
  }

  lemma FullWhenQuiet(s: Log, between: seq<Action>, from: nat)
    requires WindowInv(s) && s.maxEntries >= 1 && from >= 1 && Accepts(s, between) == 0
    ensures ReplayIsFull(s, between, from)
  {
    var s' := Run(s, between);
    QuietRunOnlyForgets(s, between);
    PiecesInOrder(s.evicted, s.window, s.nextNum);
    forall e | e in s'.window
      ensures e.num >= s.minNum
    {
      var i :| 0 <= i < |s.window| && s.window[i] == e;
    }
    forall i | 0 <= i < |s'.evicted|
      ensures s'.evicted[i].num < s.minNum
    {
      assert s'.evicted[i] in s.evicted;
    }
    hide Run;
    ReplayFullExactly(s.minNum, s', from);
  }

  const MESSAGE := Entry("a", "x", Other("m"))

  function Filler(n: nat): seq<Action> {
    seq(n, _ => Append(MESSAGE, true, true))
  }

  function Numbered(n: nat): (events: seq<Event>)
    ensures |events| == n
    ensures forall i :: 0 <= i < n ==> events[i].num == i + 1
  {
    if n == 0 then [] else Numbered(n - 1) + [Event(n, MESSAGE)]
  }

  /** A store-less log that accepted `n` messages and nothing else. */
  ghost predicate HoldsFiller(s: Log, maxEntries: nat, n: nat) {
    && !s.hasStore && !s.failed && s.maxEntries == maxEntries && s.nextNum == n + 1 && |s.published| == n
    && s.evicted + s.window == Numbered(n) && |s.window| == (if n <= maxEntries then n else maxEntries)
    && s.minNum == if s.window == [] then 0 else n - |s.window| + 1
  }

  lemma FillerStep(s: Log, maxEntries: nat, n: nat)
    requires HoldsFiller(s, maxEntries, n)
    ensures HoldsFiller(Accept(s, MESSAGE), maxEntries, n + 1)
  {
    var s' := Accept(s, MESSAGE);
    AcceptAppends(s, MESSAGE);
    NewestIsSuffix(maxEntries, s.window + [Event(s.nextNum, MESSAGE)]);
    hide Newest;
    if s'.window != [] {
      assert s'.window[0] == (s'.evicted + s'.window)[|s'.evicted|] == Numbered(n + 1)[n + 1 - |s'.window|];
    }
  }

  lemma FillerGrows(n: nat)
    requires n > 0
    ensures Filler(n) == Filler(n - 1) + [Append(MESSAGE, true, true)] && Filler(0) == []
  {
  }

  lemma NoFiller(maxEntries: nat)
    ensures HoldsFiller(Run(Fresh(maxEntries), Filler(0)), maxEntries, 0)
  {
  }

  lemma {:induction false} FillerState(maxEntries: nat, n: nat)
    ensures HoldsFiller(Run(Fresh(maxEntries), Filler(n)), maxEntries, n)
  {
    if n == 0 {
      NoFiller(maxEntries);
    } else {
      hide *;
      FillerState(maxEntries, n - 1);
      FillerStep(Run(Fresh(maxEntries), Filler(n - 1)), maxEntries, n - 1);
      FillerGrows(n);
      RunSnoc(Fresh(maxEntries), Filler(n - 1), Append(MESSAGE, true, true));
      NotFailed(Run(Fresh(maxEntries), Filler(n - 1)), maxEntries, n - 1);
    }
  }

  lemma NotFailed(s: Log, maxEntries: nat, n: nat)
    requires HoldsFiller(s, maxEntries, n)
    ensures Apply(s, Append(MESSAGE, true, true)) == Accept(s, MESSAGE)
  {
  }

  /** An answer `Complete` from a number the bound pushed out is short. */
  lemma GapInFiller(oldest: nat, s: Log, maxEntries: nat, n: nat, from: nat)
    requires HoldsFiller(s, maxEntries, n) && n > maxEntries && n - maxEntries >= from
    requires oldest <= n - maxEntries + 1 && (from == 0 || oldest <= from)
    ensures !OmitsNothing(ReplayWith(oldest, s.window, from), s, from)
  {
    var gap := n - maxEntries - 1;
    assert s.evicted[gap] == (s.evicted + s.window)[gap] == Numbered(n)[gap];
    forall e | e in s.window
      ensures e.num >= oldest
    {
      var i :| 0 <= i < |s.window| && s.window[i] == e;
      assert e == (s.evicted + s.window)[|s.evicted| + i] == Numbered(n)[|s.evicted| + i];
    }
    hide Numbered;
    ReplayFullExactly(oldest, s, from);
  }

  /** After `before` and `more` messages. */
  lemma FillerLeavesAGap(maxEntries: nat, before: nat, more: nat, from: nat)
    requires before + more > maxEntries && before + more - maxEntries >= from
    requires from == 0 || maxEntries == 0 || before == maxEntries + from - 1
    ensures Accepts(Run(Fresh(maxEntries), Filler(before)), Filler(more)) == more
    ensures !ReplayIsFull(Run(Fresh(maxEntries), Filler(before)), Filler(more), from)
  {
    hide Run, Numbered, ReplayWith, OmitsNothing;
    var s, n := Run(Fresh(maxEntries), Filler(before)), before + more;
    assert Filler(n) == Filler(before) + Filler(more);
    RunInPieces(Fresh(maxEntries), Filler(before), Filler(more));
    FillerState(maxEntries, before);
    FillerState(maxEntries, n);
    GapInFiller(s.minNum, Run(Fresh(maxEntries), Filler(n)), maxEntries, n, from);
  }

  lemma ShortInSomeRun(maxEntries: nat, from: nat, k: nat)
    requires maxEntries == 0 || from == 0 || k >= 1
    ensures exists before, between :: Accepts(Run(Fresh(maxEntries), before), between) <= k
                                      && !ReplayIsFull(Run(Fresh(maxEntries), before), between, from)
  {
    if maxEntries == 0 || from == 0 {
      FillerLeavesAGap(maxEntries, maxEntries + from + 1, 0, from);
    } else {
      FillerLeavesAGap(maxEntries, maxEntries + from - 1, 1, from);
    }
  }

  lemma FullInEveryRun(maxEntries: nat, before: seq<Action>, between: seq<Action>, from: nat)
    requires maxEntries >= 1 && from >= 1 && Accepts(Run(Fresh(maxEntries), before), between) == 0
    ensures ReplayIsFull(Run(Fresh(maxEntries), before), between, from)
  {
    FreshKeepsInv(maxEntries);
    RunKeepsInv(Fresh(maxEntries), before);
    RunKeepsBound(Fresh(maxEntries), before);
    FullWhenQuiet(Run(Fresh(maxEntries), before), between, from);
  }

  /** With at most `k` events accepted between the two reads, a store-less log's answers can be trusted in
      every run exactly when the window holds at least one event, the request starts at 1 or later, and
      `k` is zero. */
  lemma ReplayTrustedExactly(maxEntries: nat, from: nat, k: nat)
    ensures (forall before, between :: Accepts(Run(Fresh(maxEntries), before), between) <= k
                                       ==> ReplayIsFull(Run(Fresh(maxEntries), before), between, from))
            <==> maxEntries >= 1 && from >= 1 && k == 0
  {
    if maxEntries >= 1 && from >= 1 && k == 0 {
      forall before, between | Accepts(Run(Fresh(maxEntries), before), between) <= k
        ensures ReplayIsFull(Run(Fresh(maxEntries), before), between, from)
      {
        Durability.BroadcastGrows(Run(Fresh(maxEntries), before), between);
        FullInEveryRun(maxEntries, before, between, from);
      }
    } else {
      ShortInSomeRun(maxEntries, from, k);
    }
  }

  lemma EmptyRange(rows: seq<Event>, from: nat, through: nat)
    ensures from > through ==> Between(rows, from, through) == []
    ensures from > 0 ==> Between(rows, from, from - 1) == []
  {
    if from > through {
      FilterDropsAll(e => InRange(from, through, e), rows);
    }
    if from > 0 {
      FilterDropsAll(e => InRange(from, from - 1, e), rows);
    }
  }

  /** What one page adds, whatever was appended since the watermark was read. */
  lemma NextPage(rows: seq<Event>, later: seq<Event>, from: nat, cursor: nat, through: nat, pageSize: nat)
    requires Ascending(rows) && Ascending(rows + later) && pageSize >= 1 && from <= cursor <= through
    requires forall e :: e in later ==> e.num > through
    ensures var page := Page(rows + later, cursor, through, pageSize);
            var before := if cursor > 0 then Between(rows, from, cursor - 1) else [];
            if page == [] then before == Between(rows, from, through)
            else cursor <= page[|page| - 1].num <= through && before + page == Between(rows, from, page[|page| - 1].num)
  {
    var page := Page(rows + later, cursor, through, pageSize);
    var before := if cursor > 0 then Between(rows, from, cursor - 1) else [];
    BetweenIgnoresLaterRows(rows, later, cursor, through);
    BetweenSplits(rows, from, cursor, through);
    if page == [] {
      assert Between(rows, cursor, through) == [];
      assert before + [] == before;
    } else {
      PageIsRangeToItsLast(rows, cursor, through, pageSize);
      assert Page(rows, cursor, through, pageSize) == page;
      BetweenSplits(rows, from, cursor, page[|page| - 1].num);
    }
  }
}
